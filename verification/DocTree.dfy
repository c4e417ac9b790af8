/**
 The normaliser of parsed help documents, `doc_node_fixup_tree` of
 SCDoc/SCDoc.cpp: runs of text and line breaks become one text.
 */
module DocTree {

  datatype Id = TEXT | NL | Other(name: string)

  datatype Text = NoText | Some(value: string)

  datatype Node = Node(id: Id, text: Text, children: seq<Node>)

  // ----- what the normaliser computes

  predicate Blank(c: char) { c == ' ' || '\t' <= c <= '\r' }

  /** Trailing blanks off; a first character stays, blank or not. */
  function Strip(s: string): (r: string)
    decreases |s|
  {
    if |s| > 1 && Blank(s[|s| - 1]) then Strip(s[..|s| - 1]) else s
  }

  function StripText(id: Id, t: Text): Text {
    if id != TEXT && t.Some? then Some(Strip(t.value)) else t
  }

  /** A line break at the very end goes. */
  function DropFinal(cs: seq<Node>): (r: seq<Node>)
    ensures r <= cs
  {
    if cs != [] && cs[|cs| - 1].id == NL then cs[..|cs| - 1] else cs
  }

  /** `child` is swallowed by the text before it. */
  predicate Joins(done: seq<Node>, child: Node) {
    done != [] && done[|done| - 1].id == TEXT && (child.id == TEXT || child.id == NL)
  }

  /** What a swallowed child adds to the text. */
  function Added(child: Node): string {
    if child.id == NL then " " else if child.text.Some? then child.text.value else ""
  }

  function TextOf(n: Node): string {
    if n.text.Some? then n.text.value else ""
  }

  /** strmerge, or a space for a line break: two missing texts stay missing. */
  function Joined(last: Node, child: Node): (t: Text)
    ensures TextOf(last.(text := t)) == TextOf(last) + Added(child)
  {
    if child.id != NL && last.text.NoText? then child.text else Some(TextOf(last) + Added(child))
  }

  /** The last node of `done` with the text of `child` behind its own. */
  function Swallow(done: seq<Node>, child: Node): seq<Node>
    requires done != []
  {
    var last := done[|done| - 1];
    done[..|done| - 1] + [last.(text := Joined(last, child))]
  }

  function Fix(n: Node): (r: Node)
    ensures r.id == n.id
    decreases n, 1
  {
    Node(n.id, StripText(n.id, n.text), FixAll([], DropFinal(n.children)))
  }

  /** The children in turn, `done` being finished. */
  function FixAll(done: seq<Node>, cs: seq<Node>): seq<Node>
    decreases cs, 0
  {
    if cs == [] then done
    else if Joins(done, cs[0]) then FixAll(Swallow(done, cs[0]), cs[1..])
    else FixAll(done + [Fix(cs[0])], cs[1..])
  }

  // ----- the trees the parser builds

  /** Text and line breaks are leaves, and text has text. */
  ghost predicate Parsed(n: Node)
    decreases n
  {
    && (n.id == TEXT ==> n.text.Some? && n.children == [])
    && (n.id == NL ==> n.text == NoText && n.children == [])
    && forall c :: c in n.children ==> Parsed(c)
  }

  // ----- normal form

  /** No text is followed by a text or a line break, here or below, and texts are stripped. */
  ghost predicate Merged(n: Node)
    decreases n
  {
    && (forall i :: 0 <= i < |n.children| - 1 && n.children[i].id == TEXT ==>
          n.children[i + 1].id != TEXT && n.children[i + 1].id != NL)
    && (n.id != TEXT && n.text.Some? ==> Strip(n.text.value) == n.text.value)
    && forall c :: c in n.children ==> Merged(c)
  }

  /** The children end in a line break. */
  predicate EndsInBreak(cs: seq<Node>) { cs != [] && cs[|cs| - 1].id == NL }

  /** No node below ends in a line break. */
  ghost predicate Closed(n: Node)
    decreases n
  {
    !EndsInBreak(n.children) && forall c :: c in n.children ==> Closed(c)
  }

  /** A text ends the list, but for line breaks behind it. */
  predicate EndsInText(cs: seq<Node>) {
    cs != [] && (cs[|cs| - 1].id == TEXT || (cs[|cs| - 1].id == NL && EndsInText(cs[..|cs| - 1])))
  }

  /** Two line breaks end the children, with no text before them to take the first one in. */
  predicate DoubleBreak(cs: seq<Node>) {
    |cs| >= 2 && cs[|cs| - 1].id == NL && cs[|cs| - 2].id == NL && !EndsInText(cs[..|cs| - 2])
  }

  ghost predicate SomewhereDouble(n: Node)
    decreases n
  {
    DoubleBreak(n.children) || exists c :: c in n.children && SomewhereDouble(c)
  }

  lemma {:induction false} StripStrips(s: string)
    ensures Strip(Strip(s)) == Strip(s)
    decreases |s|
  {
    if |s| > 1 && Blank(s[|s| - 1]) {
      StripStrips(s[..|s| - 1]);
    }
  }

  /** What is finished has no text before a text or a line break, and its nodes are merged. */
  ghost predicate DoneMerged(done: seq<Node>) {
    && (forall i :: 0 <= i < |done| - 1 && done[i].id == TEXT ==> done[i + 1].id != TEXT && done[i + 1].id != NL)
    && forall c :: c in done ==> Merged(c)
  }

  lemma SwallowMerged(done: seq<Node>, child: Node)
    requires DoneMerged(done) && Joins(done, child)
    ensures DoneMerged(Swallow(done, child))
  {
    var r := Swallow(done, child);
    assert forall i :: 0 <= i < |done| ==> r[i].id == done[i].id;
    forall c | c in r ensures Merged(c) {
      if c !in done[..|done| - 1] {
        assert Merged(done[|done| - 1]);
      }
    }
  }

  lemma AppendMerged(done: seq<Node>, child: Node)
    requires DoneMerged(done) && Merged(child)
    requires done != [] && done[|done| - 1].id == TEXT ==> child.id != TEXT && child.id != NL
    ensures DoneMerged(done + [child])
  {
    hide Merged;
    var r := done + [child];
    forall i | 0 <= i < |r| - 1 && r[i].id == TEXT ensures r[i + 1].id != TEXT && r[i + 1].id != NL {
    }
  }

  /** After normalising, no text is followed by a text or a line break anywhere in the tree. */
  lemma {:induction false} FixMerges(n: Node)
    ensures Merged(Fix(n))
    decreases n, 1
  {
    FixAllMerges([], DropFinal(n.children));
    if n.text.Some? {
      StripStrips(n.text.value);
    }
  }

  lemma {:induction false} FixAllMerges(done: seq<Node>, cs: seq<Node>)
    requires DoneMerged(done)
    ensures DoneMerged(FixAll(done, cs))
    decreases cs, 0
  {
    if cs != [] {
      if Joins(done, cs[0]) {
        SwallowMerged(done, cs[0]);
        FixAllMerges(Swallow(done, cs[0]), cs[1..]);
      } else {
        FixMerges(cs[0]);
        AppendMerged(done, Fix(cs[0]));
        FixAllMerges(done + [Fix(cs[0])], cs[1..]);
      }
    }
  }

  // ----- when the children still end in a line break

  /** One more child, seen from the end of the list. */
  function Then(done: seq<Node>, child: Node): seq<Node> {
    if Joins(done, child) then Swallow(done, child) else done + [Fix(child)]
  }

  lemma {:induction false} FixAllSnoc(done: seq<Node>, cs: seq<Node>, c: Node)
    ensures FixAll(done, cs + [c]) == Then(FixAll(done, cs), c)
    decreases |cs|
  {
    hide Fix, Swallow;
    if cs == [] {
      assert cs + [c] == [c];
      assert FixAll(done, [c]) == FixAll(Then(done, c), []);
    } else {
      assert (cs + [c])[1..] == cs[1..] + [c];
      FixAllSnoc(Then(done, cs[0]), cs[1..], c);
    }
  }

  /** Normalising a list ends in a text, or in a line break, as the ids of the list say. */
  lemma {:induction false} FixAllLast(cs: seq<Node>)
    ensures var r := FixAll([], cs);
      && ((r != [] && r[|r| - 1].id == TEXT) <==> EndsInText(cs))
      && (EndsInBreak(r) <==> EndsInBreak(cs) && !EndsInText(cs))
    decreases |cs|
  {
    if cs != [] {
      var front, c := cs[..|cs| - 1], cs[|cs| - 1];
      assert cs == front + [c];
      FixAllLast(front);
      FixAllSnoc([], front, c);
      hide FixAll;
    }
  }

  /** The normal form of a node ends in a line break exactly when its children ended in two that no text takes in. */
  lemma FixEnds(n: Node)
    ensures EndsInBreak(Fix(n).children) <==> DoubleBreak(n.children)
  {
    var cs := DropFinal(n.children);
    FixAllLast(cs);
    if EndsInBreak(n.children) && cs != [] {
      assert cs[..|cs| - 1] == n.children[..|n.children| - 2];
    }
    hide FixAll;
  }

  ghost predicate AllClosed(cs: seq<Node>) { forall c :: c in cs ==> Closed(c) }

  ghost predicate AllParsed(cs: seq<Node>) { forall c :: c in cs ==> Parsed(c) }

  ghost predicate AnyDouble(cs: seq<Node>) { exists c :: c in cs && SomewhereDouble(c) }

  lemma LeafClosed(n: Node)
    requires Parsed(n) && (n.id == TEXT || n.id == NL)
    ensures Closed(Fix(n)) && !SomewhereDouble(n) && Fix(n).children == []
  {
  }

  lemma SwallowClosed(done: seq<Node>, child: Node)
    requires done != []
    ensures AllClosed(Swallow(done, child)) <==> AllClosed(done)
  {
    var r := Swallow(done, child);
    var last := done[|done| - 1];
    assert done == done[..|done| - 1] + [last];
    assert Closed(r[|done| - 1]) <==> Closed(last);
    forall c | c in done && AllClosed(r) ensures Closed(c) {
      assert c in done[..|done| - 1] ==> c in r;
    }
  }

  /** No node of the normal form ends in a line break exactly when no node ended in two bare ones. */
  lemma {:induction false} FixCloses(n: Node)
    requires Parsed(n)
    ensures Closed(Fix(n)) <==> !SomewhereDouble(n)
    decreases n, 1
  {
    FixAllCloses([], DropFinal(n.children));
    FixEnds(n);
    DropKeepsDouble(n);
    hide FixAll;
  }

  lemma DropKeepsDouble(n: Node)
    requires Parsed(n)
    ensures AnyDouble(DropFinal(n.children)) <==> AnyDouble(n.children)
  {
    var cs := n.children;
    if EndsInBreak(cs) {
      LeafClosed(cs[|cs| - 1]);
      assert cs == DropFinal(cs) + [cs[|cs| - 1]];
    }
  }

  lemma {:induction false} FixAllCloses(done: seq<Node>, cs: seq<Node>)
    requires AllParsed(cs)
    ensures AllClosed(FixAll(done, cs)) <==> AllClosed(done) && !AnyDouble(cs)
    decreases cs, 0
  {
    if cs != [] {
      var rest := cs[1..];
      assert cs == [cs[0]] + rest;
      assert AnyDouble(cs) <==> SomewhereDouble(cs[0]) || AnyDouble(rest);
      FixAllCloses(Then(done, cs[0]), rest);
      if Joins(done, cs[0]) {
        LeafClosed(cs[0]);
        SwallowClosed(done, cs[0]);
      } else {
        FixCloses(cs[0]);
        assert AllClosed(done + [Fix(cs[0])]) <==> AllClosed(done) && Closed(Fix(cs[0]));
      }
    }
  }

  // ----- normalising twice

  ghost predicate NoJoin(a: Node, b: Node) { a.id == TEXT ==> b.id != TEXT && b.id != NL }

  /** A merged and closed tree is left as it is. */
  lemma {:induction false} FixIdentity(n: Node)
    requires Merged(n) && Closed(n)
    ensures Fix(n) == n
    decreases n, 1
  {
    hide Fix, FixAll, Merged, Closed;
    MergedParts(n);
    ClosedParts(n);
    FixIs(n);
    FixAllIdentity([], n.children);
    assert [] + n.children == n.children;
  }

  lemma MergedParts(n: Node)
    requires Merged(n)
    ensures forall i :: 0 <= i < |n.children| - 1 ==> NoJoin(n.children[i], n.children[i + 1])
    ensures StripText(n.id, n.text) == n.text && forall c :: c in n.children ==> Merged(c)
  {
    hide Strip;
  }

  lemma ClosedParts(n: Node)
    requires Closed(n)
    ensures DropFinal(n.children) == n.children && forall c :: c in n.children ==> Closed(c)
  {
  }

  lemma FixIs(n: Node)
    ensures Fix(n) == Node(n.id, StripText(n.id, n.text), FixAll([], DropFinal(n.children)))
  {
    hide FixAll, StripText, DropFinal;
  }

  lemma {:induction false} FixAllIdentity(done: seq<Node>, cs: seq<Node>)
    requires forall c :: c in cs ==> Merged(c) && Closed(c)
    requires done != [] && cs != [] ==> NoJoin(done[|done| - 1], cs[0])
    requires forall i :: 0 <= i < |cs| - 1 ==> NoJoin(cs[i], cs[i + 1])
    ensures FixAll(done, cs) == done + cs
    decreases cs, 0
  {
    hide Fix, Merged, Closed;
    if cs != [] {
      FixIdentity(cs[0]);
      assert done + [cs[0]] + cs[1..] == done + cs;
      FixAllIdentity(done + [cs[0]], cs[1..]);
    }
  }

  lemma LengthStep(done: seq<Node>, cs: seq<Node>, r: seq<Node>)
    requires cs != [] && |r| == |done| + |cs| && r[..|done| + 1] == done + [Fix(cs[0])]
    requires forall i :: 0 <= i < |cs| - 1 ==> r[|done| + 1 + i] == Fix(cs[1..][i])
    ensures r[..|done|] == done && forall i :: 0 <= i < |cs| ==> r[|done| + i] == Fix(cs[i])
  {
    hide Fix;
    assert r[..|done|] == r[..|done| + 1][..|done|];
    forall i | 0 <= i < |cs| ensures r[|done| + i] == Fix(cs[i]) {
      if i > 0 {
        assert r[|done| + 1 + (i - 1)] == Fix(cs[1..][i - 1]);
      } else {
        assert r[..|done| + 1][|done|] == r[|done|];
      }
    }
  }

  /** Normalising never lengthens a list, and keeps its length only by treating each child alone. */
  lemma {:induction false} FixAllLength(done: seq<Node>, cs: seq<Node>)
    ensures |FixAll(done, cs)| <= |done| + |cs|
    ensures |FixAll(done, cs)| == |done| + |cs| ==>
      FixAll(done, cs)[..|done|] == done && forall i :: 0 <= i < |cs| ==> FixAll(done, cs)[|done| + i] == Fix(cs[i])
    decreases |cs|
  {
    hide Fix;
    if cs != [] {
      FixAllLength(Then(done, cs[0]), cs[1..]);
      if !Joins(done, cs[0]) && |FixAll(done, cs)| == |done| + |cs| {
        LengthStep(done, cs, FixAll(done, cs));
      }
    }
  }

  lemma FixedParts(n: Node)
    requires Fix(n) == n
    ensures !EndsInBreak(n.children) && forall c :: c in n.children ==> Fix(c) == c
  {
    hide Fix, FixAll, StripText;
    FixIs(n);
    NothingDropped(n.children);
    KidsFixed(n.children);
  }

  lemma NothingDropped(cs: seq<Node>)
    requires FixAll([], DropFinal(cs)) == cs
    ensures DropFinal(cs) == cs && !EndsInBreak(cs)
  {
    hide FixAll, Fix;
    FixAllLength([], DropFinal(cs));
  }

  lemma KidsFixed(cs: seq<Node>)
    requires FixAll([], cs) == cs
    ensures forall c :: c in cs ==> Fix(c) == c
  {
    hide FixAll, Fix;
    FixAllLength([], cs);
    forall i | 0 <= i < |cs| ensures Fix(cs[i]) == cs[i] {
      assert FixAll([], cs)[0 + i] == Fix(cs[i]);
    }
  }

  /** A tree left as it is ends nowhere in a line break. */
  lemma {:induction false} FixedCloses(n: Node)
    requires Fix(n) == n
    ensures Closed(n)
    decreases n
  {
    hide Fix;
    FixedParts(n);
    forall c | c in n.children ensures Closed(c) {
      FixedCloses(c);
    }
  }

  /**
   Normalising a parsed tree a second time changes nothing exactly when no node
   ended in two line breaks with no text before them.
   */
  lemma IdempotentIff(n: Node)
    requires Parsed(n)
    ensures Fix(Fix(n)) == Fix(n) <==> !SomewhereDouble(n)
  {
    hide Fix, Closed, Merged, SomewhereDouble, Parsed;
    FixCloses(n);
    FixMerges(n);
    if Closed(Fix(n)) {
      FixIdentity(Fix(n));
    }
    if Fix(Fix(n)) == Fix(n) {
      FixedCloses(Fix(n));
    }
  }

  // ----- the prose is kept

  /** A help document read from left to right: where a node other than text begins and ends, and its letters. */
  datatype Mark = Begin(name: string) | Letter(c: char) | End

  function Marks(s: string): (r: seq<Mark>)
    ensures |r| == |s|
  {
    if s == "" then [] else [Letter(s[0])] + Marks(s[1..])
  }

  lemma {:induction false} MarksJoin(a: string, b: string)
    ensures Marks(a + b) == Marks(a) + Marks(b)
  {
    if a == "" {
      assert a + b == b;
    } else {
      assert (a + b)[1..] == a[1..] + b;
      MarksJoin(a[1..], b);
    }
  }

  function Opening(id: Id): seq<Mark> { if id.Other? then [Begin(id.name)] else [] }

  function Closing(id: Id): seq<Mark> { if id.Other? then [End] else [] }

  /** What a tree reads as, a line break reading as a space. */
  function Flat(n: Node): seq<Mark>
    decreases n, 1
  {
    if n.id == NL then Marks(" ") else Opening(n.id) + Marks(TextOf(n)) + FlatAll(n.children) + Closing(n.id)
  }

  function FlatAll(cs: seq<Node>): seq<Mark>
    decreases cs, 0
  {
    if cs == [] then [] else Flat(cs[0]) + FlatAll(cs[1..])
  }

  /** The same, without trailing blanks of headings and without line breaks that end a list. */
  function Prose(n: Node): seq<Mark>
    decreases n, 1
  {
    if n.id == NL then Marks(" ")
    else
      var stripped := TextOf(n.(text := StripText(n.id, n.text)));
      Opening(n.id) + Marks(stripped) + ProseAll(DropFinal(n.children)) + Closing(n.id)
  }

  function ProseAll(cs: seq<Node>): seq<Mark>
    decreases cs, 0
  {
    if cs == [] then [] else Prose(cs[0]) + ProseAll(cs[1..])
  }

  lemma {:induction false} FlatAllSnoc(cs: seq<Node>, c: Node)
    ensures FlatAll(cs + [c]) == FlatAll(cs) + Flat(c)
  {
    hide Flat;
    if cs == [] {
      assert cs + [c] == [c];
      assert FlatAll([c]) == Flat(c) + FlatAll([]);
    } else {
      assert (cs + [c])[1..] == cs[1..] + [c];
      FlatAllSnoc(cs[1..], c);
    }
  }

  lemma LeafFlat(n: Node)
    requires n.id == TEXT && n.children == []
    ensures Flat(n) == Marks(TextOf(n))
  {
    hide Marks;
    assert [] + Marks(TextOf(n)) + [] + [] == Marks(TextOf(n));
  }

  lemma LongerLast(front: seq<Node>, last: Node, last': Node, x: string)
    requires last.id == TEXT && last'.id == TEXT && last.children == [] && last'.children == []
    requires TextOf(last') == TextOf(last) + x
    ensures FlatAll(front + [last']) == FlatAll(front + [last]) + Marks(x)
  {
    hide FlatAll, Flat, TextOf, Marks;
    FlatAllSnoc(front, last);
    FlatAllSnoc(front, last');
    LeafFlat(last);
    LeafFlat(last');
    MarksJoin(TextOf(last), x);
    Regroup(FlatAll(front), Marks(TextOf(last)), Marks(x));
  }

  lemma FrontAndLast<T>(s: seq<T>)
    requires s != []
    ensures s == s[..|s| - 1] + [s[|s| - 1]]
  {
  }

  lemma SwallowFlat(done: seq<Node>, child: Node)
    requires Joins(done, child) && done[|done| - 1].children == []
    ensures FlatAll(Swallow(done, child)) == FlatAll(done) + Marks(Added(child))
  {
    hide FlatAll, Added, TextOf, Marks;
    FrontAndLast(done);
    var last := done[|done| - 1];
    var last' := last.(text := Joined(last, child));
    LongerLast(done[..|done| - 1], last, last', Added(child));
  }

  lemma Regroup<T>(a: seq<T>, b: seq<T>, c: seq<T>)
    ensures a + (b + c) == a + b + c
  {
  }

  ghost predicate TextLeaves(cs: seq<Node>) {
    forall i :: 0 <= i < |cs| && cs[i].id == TEXT ==> cs[i].children == []
  }

  /** What a swallowed child reads as. */
  lemma JoinedProse(c: Node)
    requires Parsed(c) && (c.id == TEXT || c.id == NL)
    ensures Prose(c) == Marks(Added(c))
  {
    hide Marks;
    if c.id == TEXT {
      assert [] + Marks(TextOf(c)) + [] + [] == Marks(TextOf(c));
    }
  }

  /** Normalising keeps prose and structure: only stripped blanks and final line breaks are lost. */
  lemma {:induction false} FixKeepsProse(n: Node)
    requires Parsed(n)
    ensures Flat(Fix(n)) == Prose(n)
    decreases n, 1
  {
    hide FixAll, Marks, StripText, FlatAll, ProseAll, Fix;
    FixIs(n);
    DroppedParsed(n);
    FixAllKeepsProse([], DropFinal(n.children));
    NothingFlat();
    assert [] + ProseAll(DropFinal(n.children)) == ProseAll(DropFinal(n.children));
  }

  lemma DroppedParsed(n: Node)
    requires Parsed(n)
    ensures AllParsed(DropFinal(n.children)) && TextLeaves([])
  {
  }

  lemma NothingFlat()
    ensures FlatAll([]) == []
  {
  }

  lemma JoinKeepsProse(done: seq<Node>, c: Node)
    requires Joins(done, c) && Parsed(c) && TextLeaves(done)
    ensures TextLeaves(Then(done, c)) && FlatAll(Then(done, c)) == FlatAll(done) + Prose(c)
  {
    hide Marks, FlatAll, Prose, Flat, Fix;
    assert done[|done| - 1].children == [];
    SwallowFlat(done, c);
    JoinedProse(c);
  }

  lemma NextKeepsProse(done: seq<Node>, c: Node)
    requires !Joins(done, c) && Parsed(c) && TextLeaves(done) && Flat(Fix(c)) == Prose(c)
    ensures TextLeaves(Then(done, c)) && FlatAll(Then(done, c)) == FlatAll(done) + Prose(c)
  {
    FlatAllSnoc(done, Fix(c));
    hide Marks, FlatAll, Prose, Flat;
  }

  lemma {:induction false} FixAllKeepsProse(done: seq<Node>, cs: seq<Node>)
    requires AllParsed(cs) && TextLeaves(done)
    ensures FlatAll(FixAll(done, cs)) == FlatAll(done) + ProseAll(cs)
    decreases cs, 0
  {
    hide Fix, Flat, FlatAll, Swallow, Prose, Marks, Parsed, Joins, TextLeaves;
    if cs != [] {
      var c, rest := cs[0], cs[1..];
      if Joins(done, c) {
        JoinKeepsProse(done, c);
      } else {
        FixKeepsProse(c);
        NextKeepsProse(done, c);
      }
      FixAllKeepsProse(Then(done, c), rest);
      Regroup(FlatAll(done), Prose(c), ProseAll(rest));
    }
  }

  // ----- what a heading loses

  /** What stripping leaves: all but blanks at the end, and never nothing of something. */
  lemma {:induction false} StripTakesBlanks(s: string)
    ensures var r := Strip(s);
      && r <= s && (s != "" ==> r != "")
      && (forall i :: |r| <= i < |s| ==>
            s[i] == ' ' || s[i] == '\t' || s[i] == '\n' || s[i] as int == 11 || s[i] as int == 12 || s[i] == '\r')
      && (|r| > 1 ==>
            var c := r[|r| - 1];
            c != ' ' && c != '\t' && c != '\n' && c as int != 11 && c as int != 12 && c != '\r')
    decreases |s|
  {
    BlankIs();
    if |s| > 1 && Blank(s[|s| - 1]) {
      hide Blank;
      StripTakesBlanks(s[..|s| - 1]);
    }
  }

  lemma BlankIs()
    ensures forall c :: Blank(c) <==>
      c == ' ' || c == '\t' || c == '\n' || c as int == 11 || c as int == 12 || c == '\r'
  {
  }

  /** A heading keeps its text up to blanks at the end; the text of a text node stays, and no text is made up. */
  lemma HeadingText(n: Node)
    ensures Fix(n).id == n.id && (Fix(n).text.Some? <==> n.text.Some?)
    ensures n.id == TEXT ==> Fix(n).text == n.text
    ensures n.text.Some? ==>
      var s, r := n.text.value, Fix(n).text.value;
      && r <= s && (s != "" ==> r != "")
      && (forall i :: |r| <= i < |s| ==>
            s[i] == ' ' || s[i] == '\t' || s[i] == '\n' || s[i] as int == 11 || s[i] as int == 12 || s[i] == '\r')
      && (n.id != TEXT && |r| > 1 ==>
            var c := r[|r| - 1];
            c != ' ' && c != '\t' && c != '\n' && c as int != 11 && c as int != 12 && c != '\r')
  {
    hide Strip, FixAll;
    if n.text.Some? {
      StripTakesBlanks(n.text.value);
    }
  }

  /** A text, a line break and a text are one text with a space in between. */
  lemma LinesJoin(id: Id, t: Text, a: string, b: string)
    ensures Fix(Node(id, t, [Node(TEXT, Some(a), []), Node(NL, NoText, []), Node(TEXT, Some(b), [])])).children ==
      [Node(TEXT, Some(a + " " + b), [])]
  {
    var x, y, z := Node(TEXT, Some(a), []), Node(NL, NoText, []), Node(TEXT, Some(b), []);
    var xy, xyz := Node(TEXT, Some(a + " "), []), Node(TEXT, Some(a + " " + b), []);
    assert [x, y, z][1..] == [y, z] && [y, z][1..] == [z] && [z][1..] == [];
    assert Fix(x) == x && [] + [x] == [x];
    assert Swallow([x], y) == [xy] && Swallow([xy], z) == [xyz];
    assert FixAll([xy], [z]) == FixAll([xyz], []);
    assert FixAll([x], [y, z]) == FixAll([xy], [z]);
    assert FixAll([], [x, y, z]) == FixAll([x], [y, z]);
    FixIs(Node(id, t, [x, y, z]));
    hide FixAll, Fix;
  }

  /** All but the blanks. */
  function Letters(s: seq<Mark>): seq<Mark> {
    if s == [] then []
    else if s[0].Letter? && (s[0].c == ' ' || s[0].c == '\t' || s[0].c == '\n' || s[0].c as int == 11
                             || s[0].c as int == 12 || s[0].c == '\r') then Letters(s[1..])
    else [s[0]] + Letters(s[1..])
  }

  lemma {:induction false} LettersJoin(a: seq<Mark>, b: seq<Mark>)
    ensures Letters(a + b) == Letters(a) + Letters(b)
  {
    if a == [] {
      assert a + b == b;
    } else {
      assert (a + b)[1..] == a[1..] + b;
      LettersJoin(a[1..], b);
    }
  }

  lemma LettersJoin4(a: seq<Mark>, b: seq<Mark>, c: seq<Mark>, d: seq<Mark>)
    ensures Letters(a + b + c + d) == Letters(a) + Letters(b) + Letters(c) + Letters(d)
  {
    hide Letters;
    LettersJoin(a + b + c, d);
    LettersJoin(a + b, c);
    LettersJoin(a, b);
  }

  lemma BlankMark(c: char)
    requires Blank(c)
    ensures Letters(Marks([c])) == []
  {
    assert [c][1..] == "" && Marks([c]) == [Letter(c)] + Marks("");
    assert Marks([c])[1..] == [];
  }

  lemma {:induction false} LettersOfStrip(s: string)
    ensures Letters(Marks(Strip(s))) == Letters(Marks(s))
    decreases |s|
  {
    hide Letters, Marks, Blank;
    if |s| > 1 && Blank(s[|s| - 1]) {
      var front, last := s[..|s| - 1], [s[|s| - 1]];
      assert s == front + last;
      MarksJoin(front, last);
      LettersJoin(Marks(front), Marks(last));
      LettersOfStrip(front);
      BlankMark(s[|s| - 1]);
    }
  }

  lemma StrippedLetters(n: Node)
    ensures Letters(Marks(TextOf(n.(text := StripText(n.id, n.text))))) == Letters(Marks(TextOf(n)))
  {
    LettersOfStrip(TextOf(n));
    hide Letters, Marks, Strip;
  }

  lemma {:induction false} ProseLetters(n: Node)
    ensures Letters(Prose(n)) == Letters(Flat(n))
    decreases n, 1
  {
    hide Letters, Marks, Strip, FlatAll, ProseAll;
    if n.id != NL {
      var stripped := TextOf(n.(text := StripText(n.id, n.text)));
      LettersJoin4(Opening(n.id), Marks(stripped), ProseAll(DropFinal(n.children)), Closing(n.id));
      LettersJoin4(Opening(n.id), Marks(TextOf(n)), FlatAll(n.children), Closing(n.id));
      StrippedLetters(n);
      ProseAllLetters(DropFinal(n.children));
      FinalBreakIsBlank(n.children);
    }
  }

  lemma FinalBreakIsBlank(cs: seq<Node>)
    ensures Letters(FlatAll(DropFinal(cs))) == Letters(FlatAll(cs))
  {
    hide FlatAll, Letters, Marks;
    if EndsInBreak(cs) {
      FrontAndLast(cs);
      FlatAllSnoc(DropFinal(cs), cs[|cs| - 1]);
      LettersJoin(FlatAll(DropFinal(cs)), Marks(" "));
      BlankMark(' ');
      assert [' '] == " ";
    }
  }

  lemma {:induction false} ProseAllLetters(cs: seq<Node>)
    ensures Letters(ProseAll(cs)) == Letters(FlatAll(cs))
    decreases cs, 0
  {
    hide Letters, Prose, Flat;
    if cs != [] {
      ProseLetters(cs[0]);
      ProseAllLetters(cs[1..]);
      LettersJoin(Prose(cs[0]), ProseAll(cs[1..]));
      LettersJoin(Flat(cs[0]), FlatAll(cs[1..]));
    }
  }

  /**
   Normalising loses blanks and nothing else: every other character of the tree, and every
   node other than text, is still there, in order and in its place.
   */
  lemma FixKeepsLetters(n: Node)
    requires Parsed(n)
    ensures Letters(Flat(Fix(n))) == Letters(Flat(n))
  {
    hide Letters, Flat, Fix, Prose;
    FixKeepsProse(n);
    ProseLetters(n);
  }
}
