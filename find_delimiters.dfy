/** Discovery of inline delimiter tokens in a text run: a left-to-right scan
    that tries the tokens longest first at every position, records where each
    match starts, and then forgets the last match of every token found an odd
    number of times. */
module DelimiterScan {
  import opened Wrappers
  import opened Sorting

  /** A token found at a position of the text. */
  datatype Match = Match(pos: nat, token: string)

  /** `d` is literally present in `text` starting at `i`. */
  predicate OccursAt(text: string, i: nat, d: string) {
    i + |d| <= |text| && text[i..i + |d|] == d
  }

  /** The tokens are the keys of a dictionary, so they are distinct; an empty
      one would make the scan stand still. */
  ghost predicate ValidDelimiters(delims: seq<string>) {
    && (forall d :: d in delims ==> |d| > 0)
    && (forall i, j :: 0 <= i < j < |delims| ==> delims[i] != delims[j])
  }

  function NegLength(d: string): int { -|d| }

  /** The order in which the scan tries the tokens: by length, longest first. */
  function LongestFirst(delims: seq<string>): seq<string> {
    SortBy(delims, NegLength)
  }

  /** The scan order holds the same tokens, longest first. */
  lemma LongestFirstOrders(delims: seq<string>)
    ensures forall d :: d in LongestFirst(delims) <==> d in delims
    ensures var order := LongestFirst(delims);
      forall i, j :: 0 <= i < j < |order| ==> |order[i]| >= |order[j]|
  {
    var order := LongestFirst(delims);
    SortByPermutesAndSorts(delims, NegLength);
    assert forall d :: d in order <==> d in multiset(delims);
    assert forall i, j :: 0 <= i < j < |order| ==> NegLength(order[i]) <= NegLength(order[j]);
  }

  /** Every token the scan tries is one of `delims`. */
  lemma LongestFirstTokens(delims: seq<string>)
    ensures forall d :: d in LongestFirst(delims) ==> d in delims
  {
    LongestFirstOrders(delims);
  }

  /** The first token of `order`, from index `j` on, present at position `i`. */
  function FirstMatch(text: string, order: seq<string>, i: nat, j: nat): (r: Option<nat>)
    requires j <= |order|
    ensures r.Some? ==> j <= r.value < |order|
    decreases |order| - j
  {
    if j == |order| then None
    else if OccursAt(text, i, order[j]) then Some(j)
    else FirstMatch(text, order, i, j + 1)
  }

  /** `FirstMatch` finds the first token, from index `j` on, that is present
      at position `i`, and finds none only when none is present. */
  lemma {:induction false} FirstMatchFinds(text: string, order: seq<string>, i: nat, j: nat)
    requires j <= |order|
    ensures var r := FirstMatch(text, order, i, j);
      && (r.Some? ==> OccursAt(text, i, order[r.value]))
      && (r.Some? ==> forall t :: j <= t < r.value ==> !OccursAt(text, i, order[t]))
      && (r.None? ==> forall t :: j <= t < |order| ==> !OccursAt(text, i, order[t]))
    decreases |order| - j
  {
    if j < |order| && !OccursAt(text, i, order[j]) {
      FirstMatchFinds(text, order, i, j + 1);
    }
  }

  /** The matches the scan records from position `i` to the end of the text. */
  function ScanFrom(text: string, order: seq<string>, i: nat): seq<Match>
    requires forall d :: d in order ==> |d| > 0
    decreases |text| - i
  {
    if i >= |text| then []
    else match FirstMatch(text, order, i, 0)
      case None => ScanFrom(text, order, i + 1)
      case Some(k) => [Match(i, order[k])] + ScanFrom(text, order, i + |order[k]|)
  }

  /** Every match the scan records, in the order it records them. */
  function Scan(text: string, delims: seq<string>): seq<Match>
    requires ValidDelimiters(delims)
  {
    LongestFirstTokens(delims);
    ScanFrom(text, LongestFirst(delims), 0)
  }

  /** The positions recorded for token `d`, in the order recorded. */
  function PositionsOf(s: seq<Match>, d: string): seq<nat> {
    if s == [] then []
    else PositionsOf(s[..|s| - 1], d) + (if s[|s| - 1].token == d then [s[|s| - 1].pos] else [])
  }

  lemma PositionsOfAppend(s: seq<Match>, m: Match, d: string)
    ensures PositionsOf(s + [m], d) == PositionsOf(s, d) + (if m.token == d then [m.pos] else [])
  {
    assert (s + [m])[..|s|] == s;
  }

  /** A list of positions of odd length loses its last element. */
  function Prune(ps: seq<nat>): (r: seq<nat>)
    ensures |r| % 2 == 0 && r <= ps && |ps| - |r| <= 1
    ensures |ps| % 2 == 0 ==> r == ps
  {
    if |ps| % 2 == 1 then ps[..|ps| - 1] else ps
  }

  /** For each token, the positions kept after pruning. */
  function FoundIndexes(text: string, delims: seq<string>): map<string, seq<nat>>
    requires ValidDelimiters(delims)
  {
    map d | d in delims :: Prune(PositionsOf(Scan(text, delims), d))
  }

  /** One step of the scan at a position where the `k`-th token is the
      first to match. */
  lemma ScanFromMatch(text: string, order: seq<string>, i: nat, k: nat)
    requires forall d :: d in order ==> |d| > 0
    requires i < |text| && FirstMatch(text, order, i, 0) == Some(k)
    ensures ScanFrom(text, order, i) == [Match(i, order[k])] + ScanFrom(text, order, i + |order[k]|)
  {
  }

  /** One step of the scan at a position where no token matches. */
  lemma ScanFromSkip(text: string, order: seq<string>, i: nat)
    requires forall d :: d in order ==> |d| > 0
    requires i < |text| && FirstMatch(text, order, i, 0) == None
    ensures ScanFrom(text, order, i) == ScanFrom(text, order, i + 1)
  {
  }

  /** `indexes` holds, for every token of `delims`, the positions recorded
      for it in `found`. */
  ghost predicate Records(indexes: map<string, seq<nat>>, delims: seq<string>, found: seq<Match>) {
    && indexes.Keys == set d | d in delims
    && (forall d :: d in indexes ==> indexes[d] == PositionsOf(found, d))
  }

  /** Appending a match's position to its token's list records the match. */
  lemma RecordMatch(indexes: map<string, seq<nat>>, delims: seq<string>, found: seq<Match>, m: Match)
    requires Records(indexes, delims, found) && m.token in delims
    ensures Records(indexes[m.token := indexes[m.token] + [m.pos]], delims, found + [m])
  {
    forall d {
      PositionsOfAppend(found, m, d);
    }
  }

  /** Drops the last position of every token of `delims` that has an odd
      number of them; the pass over the keys of `_find_delimiters_in_text`
      after the scan. */
  method DropUnpaired(raw: map<string, seq<nat>>, delims: seq<string>) returns (indexes: map<string, seq<nat>>)
    requires raw.Keys == set d | d in delims
    ensures indexes.Keys == raw.Keys
    ensures forall d :: d in indexes ==> indexes[d] == Prune(raw[d])
  {
    indexes := raw;
    ghost var done: set<string> := {};
    for k := 0 to |delims|
      invariant indexes.Keys == raw.Keys
      invariant forall m :: 0 <= m < k ==> delims[m] in done
      invariant forall d :: d in indexes ==> indexes[d] == if d in done then Prune(raw[d]) else raw[d]
    {
      var d := delims[k];
      if |indexes[d]| % 2 == 1 {
        indexes := indexes[d := indexes[d][..|indexes[d]| - 1]];
      }
      done := done + {d};
    }
  }

  /** Tries the tokens of `order` one after the other at position `i` and
      returns the index of the first that is present there; the inner loop
      of `_find_delimiters_in_text`. */
  method FirstPresent(text: string, order: seq<string>, i: nat) returns (k: Option<nat>)
    ensures k == FirstMatch(text, order, i, 0)
  {
    var j := 0;
    while j < |order|
      invariant j <= |order|
      invariant FirstMatch(text, order, i, j) == FirstMatch(text, order, i, 0)
    {
      if OccursAt(text, i, order[j]) {
        return Some(j);
      }
      j := j + 1;
    }
    return None;
  }

  /** Pruning the recorded positions of the whole scan gives `FoundIndexes`. */
  lemma PrunedRecords(indexes: map<string, seq<nat>>, raw: map<string, seq<nat>>, text: string, delims: seq<string>)
    requires ValidDelimiters(delims)
    requires Records(raw, delims, Scan(text, delims))
    requires indexes.Keys == raw.Keys
    requires forall d :: d in indexes ==> indexes[d] == Prune(raw[d])
    ensures indexes == FoundIndexes(text, delims)
  {
  }

  /** One round of the scan loop of `_find_delimiters_in_text`: at position
      `i`, the first token present is recorded and skipped over, or, when none
      is, the scan moves on by one character. */
  method ScanStep(text: string, delims: seq<string>, order: seq<string>, i: nat,
                  indexes: map<string, seq<nat>>, ghost found: seq<Match>)
    returns (indexes': map<string, seq<nat>>, i': nat, ghost found': seq<Match>)
    requires ValidDelimiters(delims) && order == LongestFirst(delims)
    requires forall d :: d in order ==> |d| > 0
    requires i < |text| && Records(indexes, delims, found)
    ensures i < i' <= |text| && Records(indexes', delims, found')
    ensures match FirstMatch(text, order, i, 0)
      case Some(k) => i' == i + |order[k]| && found' == found + [Match(i, order[k])]
      case None => i' == i + 1 && found' == found
    ensures found' + ScanFrom(text, order, i') == found + ScanFrom(text, order, i)
  {
    LongestFirstTokens(delims);
    var k := FirstPresent(text, order, i);
    FirstMatchFinds(text, order, i, 0);
    if k.Some? {
      var d := order[k.value];
      ScanFromMatch(text, order, i, k.value);
      RecordMatch(indexes, delims, found, Match(i, d));
      indexes' := indexes[d := indexes[d] + [i]];
      found' := found + [Match(i, d)];
      i' := i + |d|;
    } else {
      ScanFromSkip(text, order, i);
      indexes', i', found' := indexes, i + 1, found;
    }
  }

  /** Scans `text` for the tokens `delims` and returns, for each token, the
      start positions of its matches, with the last one dropped when a token
      matched an odd number of times. */
  method FindDelimiters(text: string, delims: seq<string>) returns (indexes: map<string, seq<nat>>)
    requires ValidDelimiters(delims)
    ensures indexes == FoundIndexes(text, delims)
  {
    indexes := map d | d in delims :: [];
    var order := LongestFirst(delims);
    LongestFirstTokens(delims);
    ghost var whole := ScanFrom(text, order, 0);
    var i := 0;
    ghost var found: seq<Match> := [];
    while i < |text|
      invariant i <= |text|
      invariant found + ScanFrom(text, order, i) == whole
      invariant Records(indexes, delims, found)
      decreases |text| - i
    {
      indexes, i, found := ScanStep(text, delims, order, i, indexes, found);
    }
    assert found == whole;
    ghost var raw := indexes;
    indexes := DropUnpaired(indexes, delims);
    PrunedRecords(indexes, raw, text, delims);
  }

  /** The matches are separated: each one ends at or before the next begins,
      so no two overlap and their positions strictly ascend. */
  ghost predicate Separated(s: seq<Match>) {
    forall a, b :: 0 <= a < b < |s| ==> s[a].pos + |s[a].token| <= s[b].pos
  }

  /** Every match of the scan from `i` on is a token of `order` literally
      present at a position at or after `i`, and the matches are separated. */
  lemma ScanFromSound(text: string, order: seq<string>, i: nat)
    requires forall d :: d in order ==> |d| > 0
    ensures var s := ScanFrom(text, order, i);
      && (forall m :: m in s ==> i <= m.pos && m.token in order && OccursAt(text, m.pos, m.token))
      && Separated(s)
  {
    ScanFromPlaced(text, order, i);
    ScanFromSeparated(text, order, i);
  }

  lemma {:induction false} ScanFromPlaced(text: string, order: seq<string>, i: nat)
    requires forall d :: d in order ==> |d| > 0
    ensures var s := ScanFrom(text, order, i);
      forall t :: 0 <= t < |s| ==> i <= s[t].pos && s[t].token in order && OccursAt(text, s[t].pos, s[t].token)
    decreases |text| - i
  {
    if i < |text| {
      FirstMatchFinds(text, order, i, 0);
      match FirstMatch(text, order, i, 0)
      case None =>
        ScanFromPlaced(text, order, i + 1);
        ScanFromSkip(text, order, i);
      case Some(k) =>
        ScanFromPlaced(text, order, i + |order[k]|);
        ScanFromMatch(text, order, i, k);
    }
  }

  lemma {:induction false} ScanFromSeparated(text: string, order: seq<string>, i: nat)
    requires forall d :: d in order ==> |d| > 0
    ensures Separated(ScanFrom(text, order, i))
    decreases |text| - i
  {
    if i < |text| {
      match FirstMatch(text, order, i, 0)
      case None =>
        ScanFromSeparated(text, order, i + 1);
      case Some(k) =>
        var j := i + |order[k]|;
        ScanFromSeparated(text, order, j);
        ScanFromPlaced(text, order, j);
        ScanFromMatch(text, order, i, k);
    }
  }

  /** Every match of the scan is one of the tokens, present where it was
      recorded; matches never overlap. */
  lemma ScanSound(text: string, delims: seq<string>)
    requires ValidDelimiters(delims)
    ensures var s := Scan(text, delims);
      && (forall m :: m in s ==> m.token in delims && OccursAt(text, m.pos, m.token))
      && Separated(s)
  {
    LongestFirstTokens(delims);
    ScanFromSound(text, LongestFirst(delims), 0);
  }

  /** At a recorded match no longer token is present: the longest token
      present at a position wins. */
  lemma {:induction false} ScanFromLongest(text: string, order: seq<string>, i: nat)
    requires forall d :: d in order ==> |d| > 0
    requires forall a, b :: 0 <= a < b < |order| ==> |order[a]| >= |order[b]|
    ensures forall m, d :: m in ScanFrom(text, order, i) && d in order && |d| > |m.token| ==> !OccursAt(text, m.pos, d)
    decreases |text| - i
  {
    if i < |text| {
      FirstMatchFinds(text, order, i, 0);
      match FirstMatch(text, order, i, 0)
      case None =>
        ScanFromLongest(text, order, i + 1);
      case Some(k) =>
        ScanFromLongest(text, order, i + |order[k]|);
        forall d | d in order && |d| > |order[k]|
          ensures !OccursAt(text, i, d)
        {
          var t :| 0 <= t < |order| && order[t] == d;
          assert t < k;
        }
    }
  }

  lemma LongestWins(text: string, delims: seq<string>)
    requires ValidDelimiters(delims)
    ensures forall m, d :: m in Scan(text, delims) && d in delims && |d| > |m.token| ==> !OccursAt(text, m.pos, d)
  {
    LongestFirstOrders(delims);
    ScanFromLongest(text, LongestFirst(delims), 0);
  }

  /** Every position from `i` on at which some token is present lies inside
      a recorded match: the scan only steps over positions where no token
      starts. */
  lemma {:induction false} ScanFromCovers(text: string, order: seq<string>, i: nat, p: nat, d: string)
    requires forall d :: d in order ==> |d| > 0
    requires i <= p && d in order && OccursAt(text, p, d)
    ensures var s := ScanFrom(text, order, i);
      exists k :: 0 <= k < |s| && s[k].pos <= p < s[k].pos + |s[k].token|
    decreases |text| - i
  {
    FirstMatchFinds(text, order, i, 0);
    match FirstMatch(text, order, i, 0)
    case None =>
      if i < p {
        ScanFromCovers(text, order, i + 1, p, d);
      }
    case Some(k) =>
      ScanFromMatch(text, order, i, k);
      if p >= i + |order[k]| {
        var j := i + |order[k]|;
        ScanFromCovers(text, order, j, p, d);
        var rest := ScanFrom(text, order, j);
        var k' :| 0 <= k' < |rest| && rest[k'].pos <= p < rest[k'].pos + |rest[k'].token|;
        assert ScanFrom(text, order, i)[k' + 1] == rest[k'];
      } else {
        assert ScanFrom(text, order, i)[0] == Match(i, order[k]);
      }
  }

  lemma ScanCovers(text: string, delims: seq<string>, p: nat, d: string)
    requires ValidDelimiters(delims)
    requires d in delims && OccursAt(text, p, d)
    ensures var s := Scan(text, delims);
      exists k :: 0 <= k < |s| && s[k].pos <= p < s[k].pos + |s[k].token|
  {
    LongestFirstOrders(delims);
    ScanFromCovers(text, LongestFirst(delims), 0, p, d);
    assert Scan(text, delims) == ScanFrom(text, LongestFirst(delims), 0);
  }

  /** The positions recorded for one token are each the start of a match of
      that token, and they ascend, each at least the token's length past the
      one before. */
  lemma PositionsOfSeparated(s: seq<Match>, d: string)
    requires Separated(s)
    ensures var ps := PositionsOf(s, d);
      && (forall p :: p in ps ==> Match(p, d) in s)
      && (forall a, b :: 0 <= a < b < |ps| ==> ps[a] + |d| <= ps[b])
  {
    PositionsOfMatches(s, d);
    PositionsOfAscend(s, d);
  }

  /** Each recorded position of `d` is a match of `d`. */
  lemma {:induction false} PositionsOfMatches(s: seq<Match>, d: string)
    ensures forall p :: p in PositionsOf(s, d) ==> Match(p, d) in s
  {
    if s != [] {
      var init, m := s[..|s| - 1], s[|s| - 1];
      PositionsOfMatches(init, d);
      PositionsOfAppend(init, m, d);
      assert s == init + [m];
      assert forall x :: x in init ==> x in s;
    }
  }

  lemma {:induction false} PositionsOfAscend(s: seq<Match>, d: string)
    requires Separated(s)
    ensures var ps := PositionsOf(s, d);
      forall a, b :: 0 <= a < b < |ps| ==> ps[a] + |d| <= ps[b]
  {
    if s != [] {
      var init, m := s[..|s| - 1], s[|s| - 1];
      assert s == init + [m];
      assert Separated(init) by {
        assert forall a :: 0 <= a < |init| ==> init[a] == s[a];
      }
      PositionsOfAscend(init, d);
      PositionsOfAppend(init, m, d);
      var ps := PositionsOf(init, d);
      if m.token == d {
        PositionsOfMatches(init, d);
        forall a | 0 <= a < |ps|
          ensures ps[a] + |d| <= m.pos
        {
          assert ps[a] in ps;
          var k :| 0 <= k < |init| && init[k] == Match(ps[a], d);
          assert s[k] == init[k];
        }
      }
    }
  }

  /** What `_find_delimiters_in_text` returns: one list per token; each is
      of even length, drops at most the last position the scan recorded
      for that token, and holds strictly ascending positions at which the
      token literally occurs, never closer than the token's length. */
  lemma FoundIndexesSound(text: string, delims: seq<string>)
    requires ValidDelimiters(delims)
    ensures var indexes := FoundIndexes(text, delims);
      && indexes.Keys == set d | d in delims
      && forall d :: d in indexes ==>
        var ps := indexes[d];
        && |ps| % 2 == 0
        && ps <= PositionsOf(Scan(text, delims), d)
        && |PositionsOf(Scan(text, delims), d)| - |ps| <= 1
        && (forall p :: p in ps ==> OccursAt(text, p, d))
        && (forall a, b :: 0 <= a < b < |ps| ==> ps[a] + |d| <= ps[b])
  {
    var scan := Scan(text, delims);
    ScanSound(text, delims);
    forall d | d in delims
      ensures var ps := Prune(PositionsOf(scan, d));
        && (forall p :: p in ps ==> OccursAt(text, p, d))
        && (forall a, b :: 0 <= a < b < |ps| ==> ps[a] + |d| <= ps[b])
    {
      PositionsOfSeparated(scan, d);
      var all := PositionsOf(scan, d);
      var ps := Prune(all);
      forall p | p in ps
        ensures OccursAt(text, p, d)
      {
        var a :| 0 <= a < |ps| && ps[a] == p;
        assert all[a] == p;
        assert Match(p, d) in scan;
      }
      forall a, b | 0 <= a < b < |ps|
        ensures ps[a] + |d| <= ps[b]
      {
        assert ps[a] == all[a] && ps[b] == all[b];
      }
    }
  }

  /** Where no token occurs, the scan records nothing. */
  lemma {:induction false} ScanFromNothing(text: string, order: seq<string>, i: nat)
    requires forall d :: d in order ==> |d| > 0
    requires forall p: nat, d :: i <= p && d in order ==> !OccursAt(text, p, d)
    ensures ScanFrom(text, order, i) == []
    decreases |text| - i
  {
    if i < |text| {
      FirstMatchFinds(text, order, i, 0);
      assert FirstMatch(text, order, i, 0) == None;
      ScanFromNothing(text, order, i + 1);
    }
  }
}
