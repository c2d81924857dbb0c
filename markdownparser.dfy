/** `split_nodes_delimiter`: every TEXT fragment is cut at the delimiter
    events into typed fragments; the fragments between two events carry the
    styles active there, one copy per style, or plain TEXT when none is. */
module MarkdownParser {
  import opened Wrappers
  import opened TextNodes
  import opened Config
  import opened DelimiterScan
  import opened StyledSpans

  /** The delimiter table's keys satisfy what the scan needs. */
  lemma KeysValid()
    ensures ValidDelimiters(Keys)
    ensures forall d :: d in Keys <==> d in Delimiters
  {
    KeysDescribeTable();
  }

  ghost predicate KnownTokens(events: seq<Event>) {
    forall e :: e in events ==> e.token in Delimiters
  }

  /** Every event of a text names a key of the delimiter table. */
  lemma EventsKnown(text: string)
    ensures ValidDelimiters(Keys)
    ensures KnownTokens(Events(text, Keys))
  {
    KeysValid();
    EventsWellPlaced(text, Keys);
  }

  /** Python's slice `s[lo:hi]` for non-negative bounds. */
  function Slice(s: string, lo: nat, hi: nat): (r: string)
    ensures lo <= hi <= |s| ==> r == s[lo..hi]
    ensures |r| <= |s|
  {
    var h := if hi <= |s| then hi else |s|;
    if lo < h then s[lo..h] else []
  }

  /** Python's `list.remove` when the element is present: drops its first
      occurrence. */
  function RemoveFirst(s: seq<TextType>, x: TextType): seq<TextType> {
    if s == [] then []
    else if s[0] == x then s[1..]
    else [s[0]] + RemoveFirst(s[1..], x)
  }

  /** Removal adds nothing and keeps every other element. */
  lemma {:induction false} RemoveFirstMembers(s: seq<TextType>, x: TextType)
    ensures forall y :: y in RemoveFirst(s, x) ==> y in s
    ensures forall y :: y != x ==> (y in RemoveFirst(s, x) <==> y in s)
  {
    if s != [] && s[0] != x {
      RemoveFirstMembers(s[1..], x);
      assert s == [s[0]] + s[1..];
    }
  }

  /** No style occurs twice. */
  ghost predicate NoDup(s: seq<TextType>) {
    forall i, j :: 0 <= i < j < |s| ==> s[i] != s[j]
  }

  /** On a list without repeats, removal takes the element out entirely. */
  lemma {:induction false} RemoveFirstNoDup(s: seq<TextType>, x: TextType)
    requires NoDup(s)
    ensures NoDup(RemoveFirst(s, x)) && x !in RemoveFirst(s, x)
  {
    if s != [] {
      if s[0] == x {
        assert forall j :: 0 < j < |s| ==> s[j] != x;
        assert forall y :: y in s[1..] ==> exists j :: 0 < j < |s| && s[j] == y;
      } else {
        RemoveFirstNoDup(s[1..], x);
        RemoveFirstMembers(s[1..], x);
        var r := RemoveFirst(s[1..], x);
        assert forall y :: y in s[1..] ==> exists j :: 0 < j < |s| && s[j] == y;
        assert s[0] !in s[1..];
        assert forall i :: 0 <= i < |r| ==> r[i] in r;
      }
    }
  }

  /** The fragments for one span: one per active style, in activation order,
      or a single TEXT fragment when no style is active. */
  function Flush(span: string, active: seq<TextType>): seq<TextNode> {
    if active == [] then [TextNode(span, Text, None)]
    else seq(|active|, i requires 0 <= i < |active| => TextNode(span, active[i], None))
  }

  /** With no active style a span is one TEXT fragment; otherwise it is one
      fragment per active style, in activation order, with the same text. */
  lemma FlushShape(span: string, active: seq<TextType>)
    ensures active == [] ==> Flush(span, active) == [TextNode(span, Text, None)]
    ensures active != [] ==> |Flush(span, active)| == |active|
    ensures forall i :: 0 <= i < |active| ==> Flush(span, active)[i] == TextNode(span, active[i], None)
  {
  }

  /** The cursor after the first `n` events: just past the last one's token. */
  function Cursor(events: seq<Event>, n: nat): nat
    requires n <= |events|
  {
    if n == 0 then 0 else events[n - 1].pos + |events[n - 1].token|
  }

  /** The active styles after one event: an opening appends its style, a
      closing removes it when it is active. */
  function Step(active: seq<TextType>, e: Event): seq<TextType>
    requires e.token in Delimiters
  {
    var style := Delimiters[e.token];
    if e.kind == Open then active + [style]
    else if style in active then RemoveFirst(active, style)
    else active
  }

  /** The active styles after the first `n` events. */
  function ActiveAfter(events: seq<Event>, n: nat): seq<TextType>
    requires n <= |events| && KnownTokens(events)
  {
    if n == 0 then [] else Step(ActiveAfter(events, n - 1), events[n - 1])
  }

  /** The fragments emitted before handling the first `n` events. */
  function Emitted(text: string, events: seq<Event>, n: nat): seq<TextNode>
    requires n <= |events| && KnownTokens(events)
  {
    if n == 0 then []
    else
      var lo, e := Cursor(events, n - 1), events[n - 1];
      Emitted(text, events, n - 1)
        + (if e.pos > lo then Flush(Slice(text, lo, e.pos), ActiveAfter(events, n - 1)) else [])
  }

  /** The fragments of one TEXT fragment's text for the given events: those
      emitted before each event, then the rest of the text after the last. */
  function SplitText(text: string, events: seq<Event>): seq<TextNode>
    requires KnownTokens(events)
  {
    var n := |events|;
    var lo := Cursor(events, n);
    Emitted(text, events, n)
      + (if lo < |text| then Flush(Slice(text, lo, |text|), ActiveAfter(events, n)) else [])
  }

  /** What one node becomes: itself unless it is TEXT, else its fragments. */
  function SplitNode(node: TextNode): seq<TextNode> {
    if node.textType != Text then [node]
    else
      EventsKnown(node.text);
      SplitText(node.text, Events(node.text, Keys))
  }

  /** What a list of nodes becomes: the nodes' results, in order. */
  function SplitAll(nodes: seq<TextNode>): seq<TextNode> {
    if nodes == [] then []
    else SplitAll(nodes[..|nodes| - 1]) + SplitNode(nodes[|nodes| - 1])
  }

  /** Appends the fragments of one span; the block `split_nodes_delimiter`
      repeats before each event and after the last. */
  method AppendSpan(nodes: seq<TextNode>, span: string, active: seq<TextType>) returns (out: seq<TextNode>)
    ensures out == nodes + Flush(span, active)
  {
    out := nodes;
    FlushShape(span, active);
    if active == [] {
      out := out + [TextNode(span, Text, None)];
    } else {
      for j := 0 to |active|
        invariant out == nodes + Flush(span, active)[..j]
      {
        assert Flush(span, active)[..j + 1] == Flush(span, active)[..j] + [TextNode(span, active[j], None)];
        out := out + [TextNode(span, active[j], None)];
      }
      assert Flush(span, active)[..|active|] == Flush(span, active);
    }
  }

  /** The text between the cursor and event `i`, when there is any, emitted
      under the active styles. */
  method EmitGap(nodes: seq<TextNode>, text: string, events: seq<Event>, i: nat,
                 newNodes: seq<TextNode>, lastPos: nat, active: seq<TextType>) returns (out: seq<TextNode>)
    requires i < |events| && KnownTokens(events)
    requires lastPos == Cursor(events, i) && active == ActiveAfter(events, i)
    requires newNodes == nodes + Emitted(text, events, i)
    ensures out == nodes + Emitted(text, events, i + 1)
  {
    var e := events[i];
    EmittedStep(text, events, i);
    out := newNodes;
    if e.pos > lastPos {
      var span := Slice(text, lastPos, e.pos);
      out := AppendSpan(out, span, active);
      assert out == nodes + (Emitted(text, events, i) + Flush(span, active));
    }
  }

  /** What one event does to the active styles. */
  method ApplyEvent(active: seq<TextType>, e: Event) returns (next: seq<TextType>)
    requires e.token in Delimiters
    ensures next == Step(active, e)
  {
    next := active;
    var style := Delimiters[e.token];
    if e.kind == Open {
      next := next + [style];
    } else if style in next {
      next := RemoveFirst(next, style);
    }
  }

  /** The walk over the events of one TEXT fragment: a cursor and the list
      of active styles; before each event the text since the cursor, when
      there is any, is emitted under the active styles, then the event opens
      or closes its style and the cursor moves past its token. */
  method WalkEvents(nodes: seq<TextNode>, text: string, events: seq<Event>) returns (newNodes: seq<TextNode>)
    requires KnownTokens(events)
    ensures newNodes == nodes + SplitText(text, events)
  {
    newNodes := nodes;
    var active: seq<TextType> := [];
    var lastPos := 0;
    for i := 0 to |events|
      invariant lastPos == Cursor(events, i)
      invariant active == ActiveAfter(events, i)
      invariant newNodes == nodes + Emitted(text, events, i)
    {
      var e := events[i];
      newNodes := EmitGap(nodes, text, events, i, newNodes, lastPos, active);
      active := ApplyEvent(active, e);
      lastPos := e.pos + |e.token|;
    }
    if lastPos < |text| {
      var span := Slice(text, lastPos, |text|);
      newNodes := AppendSpan(newNodes, span, active);
    }
  }

  /** The fragments emitted before event `i + 1`: those before event `i`,
      then the gap before event `i` when it is not empty. */
  lemma EmittedStep(text: string, events: seq<Event>, i: nat)
    requires i < |events| && KnownTokens(events)
    ensures var lo, e := Cursor(events, i), events[i];
      Emitted(text, events, i + 1)
        == Emitted(text, events, i) + (if e.pos > lo then Flush(Slice(text, lo, e.pos), ActiveAfter(events, i)) else [])
  {
  }

  /** `split_nodes_delimiter`. */
  method SplitNodesDelimiter(oldNodes: seq<TextNode>) returns (newNodes: seq<TextNode>)
    ensures newNodes == SplitAll(oldNodes)
  {
    KeysValid();
    newNodes := [];
    for n := 0 to |oldNodes|
      invariant newNodes == SplitAll(oldNodes[..n])
    {
      var node := oldNodes[n];
      assert oldNodes[..n + 1][..n] == oldNodes[..n];
      if node.textType != Text {
        newNodes := newNodes + [node];
        continue;
      }
      var indexes := FindDelimiters(node.text, Keys);
      var events := ParseStyledSpans(Keys, indexes);
      SortedEventsAreEvents(node.text, Keys);
      EventsKnown(node.text);
      newNodes := WalkEvents(newNodes, node.text, events);
    }
    assert oldNodes[..|oldNodes|] == oldNodes;
  }

  // ---------------------------------------------------------------------
  // Properties.

  /** Splitting distributes over concatenation of node lists. */
  lemma {:induction false} SplitAllAppend(a: seq<TextNode>, b: seq<TextNode>)
    ensures SplitAll(a + b) == SplitAll(a) + SplitAll(b)
    decreases |b|
  {
    if b != [] {
      var init, last := b[..|b| - 1], b[|b| - 1];
      assert (a + b)[..|a + b| - 1] == a + init;
      SplitAllAppend(a, init);
    } else {
      assert a + b == a;
    }
  }

  /** A node that is not TEXT is copied unchanged, at its place between the
      results of the nodes before and after it. */
  lemma NonTextKept(a: seq<TextNode>, node: TextNode, b: seq<TextNode>)
    requires node.textType != Text
    ensures SplitAll(a + [node] + b) == SplitAll(a) + [node] + SplitAll(b)
  {
    SplitAllAppend(a + [node], b);
    SplitAllAppend(a, [node]);
    assert SplitAll([node]) == [node] by {
      assert [node][..0] == [];
    }
  }

  /** A list without TEXT nodes comes out unchanged. */
  lemma {:induction false} NoTextUnchanged(nodes: seq<TextNode>)
    requires forall k :: 0 <= k < |nodes| ==> nodes[k].textType != Text
    ensures SplitAll(nodes) == nodes
  {
    if nodes != [] {
      var init := nodes[..|nodes| - 1];
      NoTextUnchanged(init);
      assert nodes == init + [nodes[|nodes| - 1]];
    }
  }

  /** The events of a text in the form the walk relies on: known tokens
      literally present, one after the other without overlap. */
  ghost predicate WellPlaced(text: string, events: seq<Event>) {
    && KnownTokens(events)
    && (forall k :: 0 <= k < |events| ==> OccursAt(text, events[k].pos, events[k].token))
    && (forall a, b :: 0 <= a < b < |events| ==> events[a].pos + |events[a].token| <= events[b].pos)
  }

  /** Each token is labelled by the parity of the number of earlier events of
      the same token, and every token has an even number of events. */
  ghost predicate Paired(events: seq<Event>) {
    && (forall k :: 0 <= k < |events| ==> events[k].kind == KindOf(CountToken(events[..k], events[k].token)))
    && (forall d :: CountToken(events, d) % 2 == 0)
  }

  /** The events `split_nodes_delimiter` walks are well placed and paired. */
  lemma TextEvents(text: string)
    ensures ValidDelimiters(Keys)
    ensures WellPlaced(text, Events(text, Keys)) && Paired(Events(text, Keys))
  {
    KeysValid();
    EventsWellPlaced(text, Keys);
  }

  /** The cursor never passes the next event and never leaves the text. */
  lemma CursorBeforeNext(text: string, events: seq<Event>)
    requires WellPlaced(text, events)
    ensures forall n :: 0 <= n < |events| ==> Cursor(events, n) <= events[n].pos
    ensures forall n :: 0 <= n <= |events| ==> Cursor(events, n) <= |text|
  {
    forall n | 0 <= n <= |events|
      ensures Cursor(events, n) <= |text|
      ensures n < |events| ==> Cursor(events, n) <= events[n].pos
    {
      if n > 0 {
        assert OccursAt(text, events[n - 1].pos, events[n - 1].token);
      }
    }
  }

  /** Only text strictly between the cursor and the next event is emitted,
      so no fragment before an event is empty. */
  lemma {:induction false} EmittedNonEmpty(text: string, events: seq<Event>, n: nat)
    requires KnownTokens(events) && n <= |events|
    requires forall k :: 0 <= k < |events| ==> events[k].pos <= |text|
    ensures forall k :: 0 <= k < |Emitted(text, events, n)| ==>
      |Emitted(text, events, n)[k].text| > 0 && Emitted(text, events, n)[k].url == None
  {
    if n > 0 {
      EmittedNonEmpty(text, events, n - 1);
      var lo, e := Cursor(events, n - 1), events[n - 1];
      if e.pos > lo {
        var span := Slice(text, lo, e.pos);
        assert |span| > 0;
        FlushFragments(span, ActiveAfter(events, n - 1));
      }
    }
  }

  /** Every fragment of a span carries the span's text and no url. */
  lemma FlushFragments(span: string, active: seq<TextType>)
    ensures forall k :: 0 <= k < |Flush(span, active)| ==> Flush(span, active)[k].text == span && Flush(span, active)[k].url == None
  {
  }

  /** No emitted fragment has empty text, and none carries a url. */
  lemma NoEmptyFragments(text: string, events: seq<Event>)
    requires WellPlaced(text, events)
    ensures forall f :: f in SplitText(text, events) ==> |f.text| > 0 && f.url == None
  {
    var n := |events|;
    var lo := Cursor(events, n);
    assert forall k :: 0 <= k < |events| ==> events[k].pos <= |text| by {
      forall k | 0 <= k < |events|
        ensures events[k].pos <= |text|
      {
        assert OccursAt(text, events[k].pos, events[k].token);
      }
    }
    EmittedNonEmpty(text, events, n);
    var em := Emitted(text, events, n);
    var out := SplitText(text, events);
    if lo < |text| {
      FlushFragments(Slice(text, lo, |text|), ActiveAfter(events, n));
    }
    forall f | f in out
      ensures |f.text| > 0 && f.url == None
    {
      var k :| 0 <= k < |out| && out[k] == f;
      if k < |em| {
        assert out[k] == em[k];
      }
    }
  }

  /** The gap the walk looks at before the `n`-th event, or after the last. */
  function Gap(text: string, events: seq<Event>, n: nat): string
    requires n <= |events|
  {
    Slice(text, Cursor(events, n), if n < |events| then events[n].pos else |text|)
  }

  /** The gaps before the first `n` events, each followed by its event's
      token. */
  function Rebuild(text: string, events: seq<Event>, n: nat): string
    requires n <= |events|
  {
    if n == 0 then [] else Rebuild(text, events, n - 1) + Gap(text, events, n - 1) + events[n - 1].token
  }

  /** The gaps and the tokens tile the text up to the cursor. */
  lemma {:induction false} RebuildPrefix(text: string, events: seq<Event>, n: nat)
    requires n <= |events| && Placed(text, events, n)
    ensures Cursor(events, n) <= |text|
    ensures Rebuild(text, events, n) == text[..Cursor(events, n)]
  {
    if n > 0 {
      var c, e := Cursor(events, n - 1), events[n - 1];
      RebuildPrefix(text, events, n - 1);
      assert text[e.pos..e.pos + |e.token|] == e.token;
      assert Gap(text, events, n - 1) == text[c..e.pos];
      SliceConcat(text, c, e.pos, e.pos + |e.token|);
    }
  }

  /** The first `n` events each start at or after the cursor and name a
      token present at their position. */
  ghost predicate Placed(text: string, events: seq<Event>, n: nat)
    requires n <= |events|
  {
    n == 0 || (Placed(text, events, n - 1)
               && Cursor(events, n - 1) <= events[n - 1].pos
               && OccursAt(text, events[n - 1].pos, events[n - 1].token))
  }

  lemma {:induction false} WellPlacedIsPlaced(text: string, events: seq<Event>, n: nat)
    requires WellPlaced(text, events) && n <= |events|
    ensures Placed(text, events, n)
  {
    if n > 0 {
      WellPlacedIsPlaced(text, events, n - 1);
      if n > 1 {
        assert events[n - 2].pos + |events[n - 2].token| <= events[n - 1].pos;
      }
      assert OccursAt(text, events[n - 1].pos, events[n - 1].token);
    }
  }

  lemma SliceConcat(text: string, a: nat, b: nat, c: nat)
    requires a <= b <= c <= |text|
    ensures text[..c] == text[..a] + text[a..b] + text[b..c]
  {
    assert text[..c] == text[..b] + text[b..c];
    assert text[..b] == text[..a] + text[a..b];
  }

  /** The fragments of the gaps before the first `n` events: each non-empty
      gap under the styles active at its start. */
  function GapFragments(text: string, events: seq<Event>, n: nat): seq<TextNode>
    requires n <= |events| && KnownTokens(events)
  {
    if n == 0 then []
    else
      var gap := Gap(text, events, n - 1);
      GapFragments(text, events, n - 1) + (if gap != [] then Flush(gap, ActiveAfter(events, n - 1)) else [])
  }

  /** Before each event the walk emits the gap since the cursor, and
      nothing else. */
  lemma {:induction false} EmittedAreGaps(text: string, events: seq<Event>, n: nat)
    requires KnownTokens(events) && n <= |events| && Placed(text, events, n)
    ensures Emitted(text, events, n) == GapFragments(text, events, n)
  {
    if n > 0 {
      EmittedAreGaps(text, events, n - 1);
      var lo, e := Cursor(events, n - 1), events[n - 1];
      assert Gap(text, events, n - 1) == Slice(text, lo, e.pos);
      assert Slice(text, lo, e.pos) != [] <==> e.pos > lo;
    }
  }

  /** The gaps between the events and the events' tokens, in order, spell
      the whole text, and the walk emits the gaps and never a token: its
      output is the fragments of the gaps, the one after the last event
      included. */
  lemma Tiling(text: string, events: seq<Event>)
    requires WellPlaced(text, events)
    ensures Rebuild(text, events, |events|) + Gap(text, events, |events|) == text
    ensures var n := |events|;
      var last := Gap(text, events, n);
      SplitText(text, events)
        == GapFragments(text, events, n) + (if last != [] then Flush(last, ActiveAfter(events, n)) else [])
  {
    var n := |events|;
    WellPlacedIsPlaced(text, events, n);
    RebuildPrefix(text, events, n);
    var c := Cursor(events, n);
    assert Gap(text, events, n) == text[c..];
    assert text == text[..c] + text[c..];
    EmittedAreGaps(text, events, n);
  }

  /** The style of a token. */
  function StyleOf(d: string): TextType
    requires d in Delimiters
  {
    Delimiters[d]
  }

  /** Counting a token over one more event. */
  lemma CountStep(events: seq<Event>, n: nat, d: string)
    requires n < |events|
    ensures CountToken(events[..n + 1], d) == CountToken(events[..n], d) + (if events[n].token == d then 1 else 0)
  {
    assert events[..n + 1][..n] == events[..n];
  }

  /** The tokens seen an odd number of times among the first `n` events. */
  ghost function OddTokens(events: seq<Event>, n: nat): set<string>
    requires n <= |events|
  {
    set d | d in Delimiters && CountToken(events[..n], d) % 2 == 1
  }

  /** One more event flips whether its token has been seen an odd number of
      times. */
  lemma OddTokensStep(events: seq<Event>, n: nat)
    requires n < |events| && events[n].token in Delimiters
    ensures var odd, d := OddTokens(events, n), events[n].token;
      OddTokens(events, n + 1) == if d in odd then odd - {d} else odd + {d}
  {
    var odd, t := OddTokens(events, n), events[n].token;
    var odd' := if t in odd then odd - {t} else odd + {t};
    forall d
      ensures d in OddTokens(events, n + 1) <==> d in odd'
    {
      CountStep(events, n, d);
    }
  }

  /** `active` holds each style at most once, only styles of the table, and
      exactly the styles of the tokens in `odd`. */
  ghost predicate Tracks(active: seq<TextType>, odd: set<string>) {
    && NoDup(active)
    && (forall s :: s in active ==> s in Delimiters.Values)
    && (forall d :: d in Delimiters ==> (StyleOf(d) in active <==> d in odd))
  }

  /** An event that opens a token seen an even number of times, or closes
      one seen an odd number of times, keeps the active list in step. */
  lemma StepTracks(active: seq<TextType>, odd: set<string>, e: Event)
    requires Tracks(active, odd) && e.token in Delimiters
    requires e.kind == (if e.token in odd then Close else Open)
    ensures Tracks(Step(active, e), if e.token in odd then odd - {e.token} else odd + {e.token})
  {
    KeysDescribeTable();
    var style := StyleOf(e.token);
    if e.kind == Close {
      RemoveFirstNoDup(active, style);
      RemoveFirstMembers(active, style);
    }
  }

  /** Over paired events the active list never holds a style twice, and a
      style is active exactly when its token occurred an odd number of times
      so far. */
  lemma {:induction false} ActiveStyles(events: seq<Event>, n: nat)
    requires KnownTokens(events) && Paired(events) && n <= |events|
    ensures Tracks(ActiveAfter(events, n), OddTokens(events, n))
  {
    if n == 0 {
      assert events[..0] == [];
      assert OddTokens(events, 0) == {};
    } else {
      ActiveStyles(events, n - 1);
      var e := events[n - 1];
      assert e in events;
      var odd := OddTokens(events, n - 1);
      assert e.kind == KindOf(CountToken(events[..n - 1], e.token));
      OddTokensStep(events, n - 1);
      StepTracks(ActiveAfter(events, n - 1), odd, e);
    }
  }

  /** After the last of paired events no style is active, so the text after
      the last event is plain TEXT. */
  lemma ActiveEmptyAtEnd(events: seq<Event>)
    requires KnownTokens(events) && Paired(events)
    ensures ActiveAfter(events, |events|) == []
  {
    ActiveStyles(events, |events|);
    assert events[..|events|] == events;
    assert OddTokens(events, |events|) == {};
    var active := ActiveAfter(events, |events|);
    if active != [] {
      var d :| d in Delimiters && Delimiters[d] == active[0];
    }
  }

  /** A TEXT fragment in which no delimiter token occurs comes out as one
      TEXT fragment with the same text, or as nothing when its text is
      empty. */
  lemma PlainText(text: string, url: Option<string>)
    requires forall p: nat, d :: d in Keys ==> !OccursAt(text, p, d)
    ensures SplitNode(TextNode(text, Text, url)) == if text == [] then [] else [TextNode(text, Text, None)]
  {
    KeysValid();
    var scan := Scan(text, Keys);
    LongestFirstTokens(Keys);
    ScanFromNothing(text, LongestFirst(Keys), 0);
    assert Survivors(scan, scan) == [];
    assert Events(text, Keys) == [];
    assert Slice(text, 0, |text|) == text;
  }
}
