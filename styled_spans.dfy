/** Turning the recorded token positions into open/close events: the i-th
    position of a token opens a span when i is even and closes it when i is
    odd, and all events are then sorted by position. */
module StyledSpans {
  import opened Sorting
  import opened DelimiterScan

  datatype Kind = Open | Close

  /** A token at a position of the text, opening or closing a style. */
  datatype Event = Event(pos: nat, token: string, kind: Kind)

  /** The label of a token's i-th occurrence. */
  function KindOf(i: nat): Kind {
    if i % 2 == 0 then Open else Close
  }

  function EventPos(e: Event): int { e.pos }

  /** The events of one token, from its list of positions. */
  function Group(d: string, ps: seq<nat>): (r: seq<Event>)
    ensures |r| == |ps|
    ensures forall i :: 0 <= i < |ps| ==> r[i].pos == ps[i] && r[i].token == d && r[i].kind == KindOf(i)
  {
    seq(|ps|, i requires 0 <= i < |ps| => Event(ps[i], d, KindOf(i)))
  }

  lemma GroupAppend(d: string, ps: seq<nat>, p: nat)
    ensures Group(d, ps + [p]) == Group(d, ps) + [Event(p, d, KindOf(|ps|))]
  {
  }

  /** The events of every token, token after token in the order of `delims`,
      before sorting. */
  function Labelled(delims: seq<string>, indexes: map<string, seq<nat>>): seq<Event>
    requires forall d :: d in delims ==> d in indexes
  {
    if delims == [] then []
    else
      var last := delims[|delims| - 1];
      Labelled(delims[..|delims| - 1], indexes) + Group(last, indexes[last])
  }

  /** `_parse_styled_spans`: labels every position open or closed by its
      parity within its token's list, then sorts the events by position. */
  method ParseStyledSpans(delims: seq<string>, indexes: map<string, seq<nat>>) returns (events: seq<Event>)
    requires forall d :: d in delims ==> d in indexes
    ensures events == SortBy(Labelled(delims, indexes), EventPos)
  {
    events := [];
    for k := 0 to |delims|
      invariant events == Labelled(delims[..k], indexes)
    {
      var d := delims[k];
      var positions := indexes[d];
      assert delims[..k + 1][..k] == delims[..k];
      for i := 0 to |positions|
        invariant events == Labelled(delims[..k], indexes) + Group(d, positions[..i])
      {
        var kind := if i % 2 == 0 then Open else Close;
        assert positions[..i + 1] == positions[..i] + [positions[i]];
        GroupAppend(d, positions[..i], positions[i]);
        events := events + [Event(positions[i], d, kind)];
      }
      assert positions[..|positions|] == positions;
    }
    assert delims[..|delims|] == delims;
    events := SortBy(events, EventPos);
  }

  // ---------------------------------------------------------------------
  // The events in text order, read off the scan directly.

  /** The matches of `p` that survive pruning against the whole scan `full`:
      a match is dropped when it is its token's last one and that token
      matched an odd number of times. */
  function Survivors(p: seq<Match>, full: seq<Match>): seq<Match> {
    if p == [] then []
    else
      var init, m := p[..|p| - 1], p[|p| - 1];
      Survivors(init, full)
        + (if |PositionsOf(init, m.token)| < |Prune(PositionsOf(full, m.token))| then [m] else [])
  }

  /** Each scan match labelled by how many matches of the same token come
      before it. */
  function LabelsOf(s: seq<Match>): (r: seq<Event>)
    ensures |r| == |s|
  {
    if s == [] then []
    else
      var init, m := s[..|s| - 1], s[|s| - 1];
      LabelsOf(init) + [Event(m.pos, m.token, KindOf(|PositionsOf(init, m.token)|))]
  }

  /** The number of events of token `d`. */
  function CountToken(es: seq<Event>, d: string): nat {
    if es == [] then 0
    else CountToken(es[..|es| - 1], d) + (if es[|es| - 1].token == d then 1 else 0)
  }

  /** The events of the text: the surviving matches in scan order, each
      labelled by the parity of its rank among its token's survivors. */
  function Events(text: string, delims: seq<string>): seq<Event>
    requires ValidDelimiters(delims)
  {
    var scan := Scan(text, delims);
    LabelsOf(Survivors(scan, scan))
  }

  function Min(a: nat, b: nat): nat { if a <= b then a else b }

  /** For every token, the survivors of a prefix of the scan are the first
      positions of the prefix, up to the number the pruning keeps. */
  lemma {:induction false} SurvivorsPositions(p: seq<Match>, full: seq<Match>, d: string)
    ensures var ps := PositionsOf(p, d);
      PositionsOf(Survivors(p, full), d) == ps[..Min(|ps|, |Prune(PositionsOf(full, d))|)]
  {
    if p != [] {
      var init, m := p[..|p| - 1], p[|p| - 1];
      var c := |Prune(PositionsOf(full, d))|;
      var before := PositionsOf(init, d);
      var ps := PositionsOf(p, d);
      var after := PositionsOf(Survivors(init, full), d);
      assert after == before[..Min(|before|, c)] by {
        SurvivorsPositions(init, full, d);
      }
      assert ps == before + (if m.token == d then [m.pos] else []) by {
        assert p == init + [m];
        PositionsOfAppend(init, m, d);
      }
      assert PositionsOf(Survivors(p, full), d) == after + (if m.token == d && |before| < c then [m.pos] else []) by {
        SurvivorsLast(p, full, d);
      }
      TakeStep(before, c, m.pos, m.token == d);
    }
  }

  /** The survivors of `p` for token `d` are those of `p` less its last
      match, and that match when it is of `d` and survives. */
  lemma SurvivorsLast(p: seq<Match>, full: seq<Match>, d: string)
    requires p != []
    ensures var init, m := p[..|p| - 1], p[|p| - 1];
      var kept := |PositionsOf(init, d)| < |Prune(PositionsOf(full, d))|;
      PositionsOf(Survivors(p, full), d)
        == PositionsOf(Survivors(init, full), d) + (if m.token == d && kept then [m.pos] else [])
  {
    var init, m := p[..|p| - 1], p[|p| - 1];
    var s := Survivors(init, full);
    if |PositionsOf(init, m.token)| < |Prune(PositionsOf(full, m.token))| {
      assert Survivors(p, full) == s + [m];
      PositionsOfAppend(s, m, d);
    } else {
      assert Survivors(p, full) == s;
      if m.token == d {
        assert (if m.token == d && |PositionsOf(init, d)| < |Prune(PositionsOf(full, d))| then [m.pos] else []) == [];
      }
    }
  }

  /** Taking up to `c` elements of a list that may have grown by one. */
  lemma TakeStep(before: seq<nat>, c: nat, x: nat, grows: bool)
    ensures var ps := before + (if grows then [x] else []);
      ps[..Min(|ps|, c)] == before[..Min(|before|, c)] + (if grows && |before| < c then [x] else [])
  {
    if grows && |before| < c {
      assert before[..|before|] == before;
    }
  }

  /** Pruning the whole scan keeps, for every token, exactly `Prune` of its
      positions. */
  lemma SurvivorsPrune(scan: seq<Match>, d: string)
    ensures PositionsOf(Survivors(scan, scan), d) == Prune(PositionsOf(scan, d))
  {
    SurvivorsPositions(scan, scan, d);
    var ps := PositionsOf(scan, d);
    var kept := Prune(ps);
    assert Min(|ps|, |kept|) == |kept|;
    assert ps[..|kept|] == kept;
  }

  /** The survivors are matches of `p`, and stay separated. */
  lemma SurvivorsSeparated(p: seq<Match>, full: seq<Match>)
    requires Separated(p)
    ensures forall x :: x in Survivors(p, full) ==> x in p
    ensures Separated(Survivors(p, full))
  {
    SurvivorsAmong(p, full);
    SurvivorsKeepSeparation(p, full);
  }

  lemma {:induction false} SurvivorsAmong(p: seq<Match>, full: seq<Match>)
    ensures forall x :: x in Survivors(p, full) ==> x in p
  {
    if p != [] {
      var init, m := p[..|p| - 1], p[|p| - 1];
      assert p == init + [m];
      SurvivorsAmong(init, full);
    }
  }

  lemma {:induction false} SurvivorsKeepSeparation(p: seq<Match>, full: seq<Match>)
    requires Separated(p)
    ensures Separated(Survivors(p, full))
  {
    if p != [] {
      var init, m := p[..|p| - 1], p[|p| - 1];
      assert Separated(init) by {
        assert forall a :: 0 <= a < |init| ==> init[a] == p[a];
      }
      SurvivorsKeepSeparation(init, full);
      SurvivorsAmong(init, full);
      var s := Survivors(init, full);
      forall x | x in s
        ensures x.pos + |x.token| <= m.pos
      {
        var k :| 0 <= k < |init| && init[k] == x;
        assert p[k] == x;
      }
    }
  }

  /** The labels follow the matches one for one. */
  lemma {:induction false} LabelsOfShape(s: seq<Match>)
    ensures |LabelsOf(s)| == |s|
    ensures forall k :: 0 <= k < |s| ==> LabelsOf(s)[k] == Event(s[k].pos, s[k].token, KindOf(|PositionsOf(s[..k], s[k].token)|))
  {
    if s != [] {
      var init := s[..|s| - 1];
      LabelsOfShape(init);
      assert LabelsOf(s) == LabelsOf(init) + [Event(s[|s| - 1].pos, s[|s| - 1].token, KindOf(|PositionsOf(init, s[|s| - 1].token)|))];
      forall k | 0 <= k < |s|
        ensures LabelsOf(s)[k] == Event(s[k].pos, s[k].token, KindOf(|PositionsOf(s[..k], s[k].token)|))
      {
        if k < |init| {
          assert s[..k] == init[..k];
          assert LabelsOf(s)[k] == LabelsOf(init)[k];
        } else {
          assert s[..k] == init;
        }
      }
    }
  }

  /** Labels of a prefix are a prefix of the labels. */
  lemma {:induction false} LabelsOfPrefix(s: seq<Match>, k: nat)
    requires k <= |s|
    ensures LabelsOf(s)[..k] == LabelsOf(s[..k])
  {
    if k < |s| {
      var init := s[..|s| - 1];
      LabelsOfPrefix(init, k);
      assert init[..k] == s[..k];
      assert LabelsOf(s)[..|init|] == LabelsOf(init);
      assert LabelsOf(s)[..k] == LabelsOf(init)[..k];
    } else {
      assert s[..k] == s;
    }
  }

  /** Counting events of a token counts that token's matches. */
  lemma {:induction false} CountLabels(s: seq<Match>, d: string)
    ensures CountToken(LabelsOf(s), d) == |PositionsOf(s, d)|
  {
    if s != [] {
      var init := s[..|s| - 1];
      CountLabels(init, d);
      LabelsOfShape(s);
      assert LabelsOf(s)[..|s| - 1] == LabelsOf(init);
    }
  }

  /** All events of `s`, grouped token by token in the order of `delims`. */
  function LabelledBy(delims: seq<string>, s: seq<Match>): seq<Event> {
    if delims == [] then []
    else
      var last := delims[|delims| - 1];
      LabelledBy(delims[..|delims| - 1], s) + Group(last, PositionsOf(s, last))
  }

  lemma {:induction false} LabelledIsLabelledBy(delims: seq<string>, indexes: map<string, seq<nat>>, s: seq<Match>)
    requires forall d :: d in delims ==> d in indexes && indexes[d] == PositionsOf(s, d)
    ensures Labelled(delims, indexes) == LabelledBy(delims, s)
  {
    if delims != [] {
      LabelledIsLabelledBy(delims[..|delims| - 1], indexes, s);
    }
  }

  /** One more match adds one event, in the group of its token, when that
      token is listed (once) in `delims`. */
  lemma {:induction false} LabelledByStep(delims: seq<string>, s: seq<Match>, m: Match)
    requires forall i, j :: 0 <= i < j < |delims| ==> delims[i] != delims[j]
    ensures multiset(LabelledBy(delims, s + [m]))
      == multiset(LabelledBy(delims, s))
       + (if m.token in delims then multiset{Event(m.pos, m.token, KindOf(|PositionsOf(s, m.token)|))} else multiset{})
  {
    if delims != [] {
      var init, last := delims[..|delims| - 1], delims[|delims| - 1];
      var e := Event(m.pos, m.token, KindOf(|PositionsOf(s, m.token)|));
      var g := Group(last, PositionsOf(s, last));
      var g' := Group(last, PositionsOf(s + [m], last));
      DistinctSplit(delims);
      LabelledByStep(init, s, m);
      GroupStep(s, m, last);
      assert LabelledBy(delims, s) == LabelledBy(init, s) + g;
      assert LabelledBy(delims, s + [m]) == LabelledBy(init, s + [m]) + g';
    }
  }

  /** The last of distinct tokens is not among the others, which stay
      distinct. */
  lemma DistinctSplit(delims: seq<string>)
    requires delims != []
    requires forall i, j :: 0 <= i < j < |delims| ==> delims[i] != delims[j]
    ensures var init, last := delims[..|delims| - 1], delims[|delims| - 1];
      && last !in init
      && (forall i, j :: 0 <= i < j < |init| ==> init[i] != init[j])
      && (forall d :: d in delims <==> d in init || d == last)
  {
    var init := delims[..|delims| - 1];
    assert delims == init + [delims[|delims| - 1]];
  }

  /** One more match adds its event to the group of its token, and leaves
      the groups of other tokens alone. */
  lemma GroupStep(s: seq<Match>, m: Match, d: string)
    ensures multiset(Group(d, PositionsOf(s + [m], d)))
      == multiset(Group(d, PositionsOf(s, d)))
       + (if m.token == d then multiset{Event(m.pos, m.token, KindOf(|PositionsOf(s, m.token)|))} else multiset{})
  {
    PositionsOfAppend(s, m, d);
    var g := Group(d, PositionsOf(s, d));
    if m.token == d {
      GroupAppend(d, PositionsOf(s, d), m.pos);
      assert multiset(g + [Event(m.pos, d, KindOf(|PositionsOf(s, d)|))])
        == multiset(g) + multiset{Event(m.pos, d, KindOf(|PositionsOf(s, d)|))};
    } else {
      assert PositionsOf(s + [m], d) == PositionsOf(s, d);
    }
  }

  /** Grouping the labelled matches token by token only reorders them. */
  lemma {:induction false} LabelsMultiset(delims: seq<string>, s: seq<Match>)
    requires forall i, j :: 0 <= i < j < |delims| ==> delims[i] != delims[j]
    requires forall m :: m in s ==> m.token in delims
    ensures multiset(LabelsOf(s)) == multiset(LabelledBy(delims, s))
  {
    if s == [] {
      assert LabelledBy(delims, []) == [] by { EmptyLabelledBy(delims); }
    } else {
      var init, m := s[..|s| - 1], s[|s| - 1];
      assert s == init + [m];
      LabelsMultiset(delims, init);
      LabelledByStep(delims, init, m);
    }
  }

  lemma {:induction false} EmptyLabelledBy(delims: seq<string>)
    ensures LabelledBy(delims, []) == []
  {
    if delims != [] {
      EmptyLabelledBy(delims[..|delims| - 1]);
    }
  }

  /** The sorted events of `_parse_styled_spans`, fed the result of
      `_find_delimiters_in_text`, are exactly the surviving matches in text
      order, labelled by parity within their token. Since no two events share
      a position, Python's sort on (position, token, kind) tuples and a sort
      on the position alone give this same list. */
  lemma SortedEventsAreEvents(text: string, delims: seq<string>)
    requires ValidDelimiters(delims)
    ensures SortBy(Labelled(delims, FoundIndexes(text, delims)), EventPos) == Events(text, delims)
  {
    var scan := Scan(text, delims);
    var surv := Survivors(scan, scan);
    var indexes := FoundIndexes(text, delims);
    forall d | d in delims
      ensures indexes[d] == PositionsOf(surv, d)
    {
      SurvivorsPrune(scan, d);
    }
    LabelledIsLabelledBy(delims, indexes, surv);
    ScanSound(text, delims);
    SurvivorsSeparated(scan, scan);
    LabelsMultiset(delims, surv);
    var sorted := SortBy(Labelled(delims, indexes), EventPos);
    SortByPermutesAndSorts(Labelled(delims, indexes), EventPos);
    var events := LabelsOf(surv);
    LabelsOfShape(surv);
    forall a, b | 0 <= a < b < |events|
      ensures EventPos(events[a]) < EventPos(events[b])
    {
      assert surv[a] in scan;
    }
    SortedUnique(sorted, events, EventPos);
  }

  /** The events in order: each is a listed token literally present at its
      position, each ends at or before the next begins, and each is labelled
      open or close by the parity of the number of earlier events of its
      token; every token has an even number of events. */
  lemma EventsWellPlaced(text: string, delims: seq<string>)
    requires ValidDelimiters(delims)
    ensures var es := Events(text, delims);
      && (forall k :: 0 <= k < |es| ==> es[k].token in delims && OccursAt(text, es[k].pos, es[k].token))
      && (forall a, b :: 0 <= a < b < |es| ==> es[a].pos + |es[a].token| <= es[b].pos)
      && (forall k :: 0 <= k < |es| ==> es[k].kind == KindOf(CountToken(es[..k], es[k].token)))
      && (forall d :: CountToken(es, d) % 2 == 0)
  {
    var scan := Scan(text, delims);
    var surv := Survivors(scan, scan);
    var es := LabelsOf(surv);
    ScanSound(text, delims);
    SurvivorsSeparated(scan, scan);
    LabelsOfShape(surv);
    forall k | 0 <= k < |es|
      ensures es[k].token in delims && OccursAt(text, es[k].pos, es[k].token)
      ensures es[k].kind == KindOf(CountToken(es[..k], es[k].token))
    {
      assert surv[k] in scan;
      LabelsOfPrefix(surv, k);
      CountLabels(surv[..k], es[k].token);
    }
    forall d
      ensures CountToken(es, d) % 2 == 0
    {
      CountLabels(surv, d);
      SurvivorsPrune(scan, d);
    }
  }
}
