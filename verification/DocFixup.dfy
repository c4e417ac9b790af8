/**
 `doc_node_fixup_tree` on the nodes themselves: child arrays compacted and texts
 merged in place.
 */
module DocFixup {
  import opened DocTree

  /** striptrailingws: cuts the string from the end. */
  method StripTrailing(s: string) returns (r: string)
    ensures r <= s && (s != "" ==> r != "")
    ensures forall i :: |r| <= i < |s| ==>
      s[i] == ' ' || s[i] == '\t' || s[i] == '\n' || s[i] as int == 11 || s[i] as int == 12 || s[i] == '\r'
    ensures |r| > 1 ==>
      var c := r[|r| - 1];
      c != ' ' && c != '\t' && c != '\n' && c as int != 11 && c as int != 12 && c != '\r'
    ensures r == Strip(s)
  {
    StripTakesBlanks(s);
    var n := |s|;
    assert s[..n] == s;
    while n > 1 && Blank(s[n - 1])
      invariant 0 <= n <= |s| && Strip(s[..n]) == Strip(s)
    {
      assert s[..n][..n - 1] == s[..n - 1];
      n := n - 1;
    }
    r := s[..n];
  }

  /** The nodes of an array, its emptied slots left out. */
  function Kept(slots: seq<DocNode?>): (r: seq<DocNode>)
    ensures |r| <= |slots|
  {
    if slots == [] then []
    else
      var front, last := slots[..|slots| - 1], slots[|slots| - 1];
      if last == null then Kept(front) else Kept(front) + [last]
  }

  /**
   The nodes of `cs` are whole trees inside `region`, none of which reaches `owner`
   or another, and stand for `ts`.
   */
  ghost predicate Forest(owner: DocNode, region: set<DocNode>, cs: seq<DocNode>, ts: seq<Node>)
    reads region
  {
    && |cs| == |ts|
    && (forall i :: 0 <= i < |cs| ==> Planted(owner, region, cs[i], ts[i]))
    && (forall i, j :: 0 <= i < j < |cs| ==> cs[i] in region && cs[j] in region && cs[i].Repr !! cs[j].Repr)
  }

  ghost predicate Planted(owner: DocNode, region: set<DocNode>, c: DocNode, t: Node)
    reads region
  {
    c in region && c.Repr <= region && owner !in c.Repr && c.Valid() && c.tree == t
  }

  lemma ForestAt(owner: DocNode, region: set<DocNode>, cs: seq<DocNode>, ts: seq<Node>, k: nat)
    requires Forest(owner, region, cs, ts) && k < |cs|
    ensures |cs| == |ts| && cs[k].id == ts[k].id && cs[k] in cs[k].Repr && cs[k].Repr <= region && owner !in cs[k].Repr
    ensures cs[k] != owner
  {
    assert Planted(owner, region, cs[k], ts[k]);
  }

  /** The child behind the loop and the node before it, and whether the one joins the other. */
  lemma NextChild(owner: DocNode, region: set<DocNode>, nodes: seq<DocNode>, done: seq<Node>, ts: seq<Node>, i: nat)
    requires i < |ts| && |done| < |nodes| && Forest(owner, region, nodes, done + ts[i..])
    ensures var child := nodes[|done|];
      && child in child.Repr && child.Repr <= region && owner !in child.Repr && child != owner
      && (Joins(done, ts[i]) <==>
            (child.id == TEXT || child.id == NL) && done != [] && nodes[|done| - 1].id == TEXT)
    ensures done != [] ==> nodes[|done| - 1] in region && nodes[|done| - 1] != owner
  {
    hide Forest;
    ForestAt(owner, region, nodes, done + ts[i..], |done|);
    if done != [] {
      ForestAt(owner, region, nodes, done + ts[i..], |done| - 1);
    }
  }

  lemma ForestWithout(owner: DocNode, region: set<DocNode>, cs: seq<DocNode>, ts: seq<Node>, k: nat)
    requires Forest(owner, region, cs, ts) && k < |cs|
    ensures Forest(owner, region, cs[..k] + cs[k + 1..], ts[..k] + ts[k + 1..])
  {
    var cs', ts' := cs[..k] + cs[k + 1..], ts[..k] + ts[k + 1..];
    forall i | 0 <= i < |cs'| ensures Planted(owner, region, cs'[i], ts'[i]) {
      assert Planted(owner, region, cs[if i < k then i else i + 1], ts[if i < k then i else i + 1]);
    }
  }

  /**
   The first loop before slot `i`: of the children `cs` the ones of `nodes` remain,
   and `done` are the values of those behind the loop.
   */
  ghost predicate Merging(slots: seq<DocNode?>, cs: seq<DocNode>, ts: seq<Node>, nodes: seq<DocNode>, done: seq<Node>,
                          i: nat)
  {
    && i <= |slots| == |cs| == |ts| && |done| <= |nodes| && slots[i..] == cs[i..]
    && nodes[|done|..] == cs[i..] && Kept(slots[..i]) == nodes[..|done|]
    && FixAll(done, ts[i..]) == FixAll([], ts)
  }

  lemma MergeStart(slots: seq<DocNode?>, cs: seq<DocNode>, ts: seq<Node>)
    requires slots == cs && |cs| == |ts|
    ensures Merging(slots, cs, ts, cs, [], 0) && [] + ts[0..] == ts
  {
    assert ts[0..] == ts;
  }

  lemma MergingAt(slots: seq<DocNode?>, cs: seq<DocNode>, ts: seq<Node>, nodes: seq<DocNode>, done: seq<Node>, i: nat)
    requires Merging(slots, cs, ts, nodes, done, i) && i < |slots|
    ensures |done| < |nodes| && slots[i] == nodes[|done|]
  {
    assert slots[i] == slots[i..][0] == nodes[|done|..][0];
  }

  lemma KeptStep(slots: seq<DocNode?>, i: nat)
    requires i < |slots|
    ensures Kept(slots[..i + 1]) == if slots[i] == null then Kept(slots[..i]) else Kept(slots[..i]) + [slots[i]]
  {
    assert slots[..i + 1][..i] == slots[..i];
  }

  lemma MergingJoin(slots: seq<DocNode?>, cs: seq<DocNode>, ts: seq<Node>, nodes: seq<DocNode>, done: seq<Node>, i: nat)
    requires Merging(slots, cs, ts, nodes, done, i) && i < |slots| && Joins(done, ts[i])
    ensures |done| < |nodes| && |Swallow(done, ts[i])| == |done|
    ensures Merging(slots[i := null], cs, ts, nodes[..|done|] + nodes[|done| + 1..], Swallow(done, ts[i]), i + 1)
  {
    hide Fix, FixAll, Kept;
    KeptStep(slots[i := null], i);
    assert slots[i := null][..i] == slots[..i];
    FixAllStep(done, ts, i);
    RestStep(slots, cs, nodes, |done|, i);
    assert (nodes[..|done|] + nodes[|done| + 1..])[|done|..] == nodes[|done| + 1..];
  }

  lemma MergingFix(slots: seq<DocNode?>, cs: seq<DocNode>, ts: seq<Node>, nodes: seq<DocNode>, done: seq<Node>, i: nat)
    requires Merging(slots, cs, ts, nodes, done, i) && i < |slots| && !Joins(done, ts[i])
    ensures Merging(slots, cs, ts, nodes, done + [Fix(ts[i])], i + 1)
  {
    hide Fix, FixAll, Kept;
    KeptStep(slots, i);
    FixAllStep(done, ts, i);
    RestStep(slots, cs, nodes, |done|, i);
    assert nodes[..|done|] + [nodes[|done|]] == nodes[..|done| + 1];
  }

  lemma RestStep(slots: seq<DocNode?>, cs: seq<DocNode>, nodes: seq<DocNode>, k: nat, i: nat)
    requires i < |slots| == |cs| && k <= |nodes| && slots[i..] == cs[i..] == nodes[k..]
    ensures k < |nodes| && slots[i] == nodes[k] && nodes[k + 1..] == cs[i + 1..]
    ensures slots[i + 1..] == cs[i + 1..] && slots[i := null][i + 1..] == cs[i + 1..]
  {
    assert slots[i] == slots[i..][0];
    assert nodes[k + 1..] == nodes[k..][1..];
    assert cs[i + 1..] == cs[i..][1..];
    assert slots[i + 1..] == slots[i..][1..];
  }

  lemma MergingEnd(slots: seq<DocNode?>, cs: seq<DocNode>, ts: seq<Node>, nodes: seq<DocNode>, done: seq<Node>)
    requires Merging(slots, cs, ts, nodes, done, |slots|)
    ensures Kept(slots) == nodes && FixAll([], ts) == done && |ts| == |slots|
  {
    assert slots[..|slots|] == slots && nodes == nodes[..|done|];
  }

  lemma FixAllStep(done: seq<Node>, ts: seq<Node>, i: nat)
    requires i < |ts|
    ensures FixAll(done, ts[i..]) == FixAll(Then(done, ts[i]), ts[i + 1..])
  {
    assert ts[i..][1..] == ts[i + 1..];
  }

  lemma SwallowInPlace(done: seq<Node>, ts: seq<Node>, i: nat)
    requires i < |ts| && done != []
    ensures
      var vals, k := done + ts[i..], |done|;
      var longer := vals[k - 1].(text := Joined(vals[k - 1], vals[k]));
      vals[k - 1 := longer][..k] + vals[k + 1..] == Swallow(done, ts[i]) + ts[i + 1..]
  {
  }

  lemma FixInPlace(done: seq<Node>, ts: seq<Node>, i: nat)
    requires i < |ts|
    ensures (done + ts[i..])[|done| := Fix((done + ts[i..])[|done|])] == done + [Fix(ts[i])] + ts[i + 1..]
  {
    hide Fix;
  }

  class DocNode {
    const id: Id
    var text: Text
    var children: seq<DocNode?>

    ghost var tree: Node  // the value of the subtree
    ghost var Repr: set<DocNode>

    ghost predicate Valid()
      reads this, Repr
      decreases Repr, 0
      ensures Valid() ==> this in Repr
    {
      && this in Repr && tree.id == id && tree.text == text && |tree.children| == |children|
      && (forall i :: 0 <= i < |children| ==>
            children[i] != null && children[i] in Repr && children[i].Repr <= Repr && this !in children[i].Repr
            && children[i].Valid() && children[i].tree == tree.children[i])
      && (forall i, j :: 0 <= i < j < |children| ==> children[i].Repr !! children[j].Repr)
    }

    constructor (name: Id, words: Text)
      ensures Valid() && fresh(Repr) && tree == Node(name, words, [])
    {
      id, text, children := name, words, [];
      tree, Repr := Node(name, words, []), {this};
    }

    /** doc_node_add_child: takes a tree of its own as the last child. */
    method AddChild(child: DocNode)
      requires Valid() && child.Valid() && Repr !! child.Repr
      modifies this
      ensures Valid() && Repr == old(Repr) + child.Repr
      ensures tree == old(tree).(children := old(tree).children + [child.tree])
    {
      children := children + [child];
      tree, Repr := tree.(children := tree.children + [child.tree]), Repr + child.Repr;
    }

    /** Puts the text of `child` behind the text of this node: strmerge, or a space for a line break. */
    method Append(child: DocNode)
      requires Valid() && child.Valid() && child != this
      modifies this
      ensures Valid() && Repr == old(Repr) && tree == old(tree).(text := Joined(old(tree), old(child.tree)))
    {
      if child.id == NL {
        text := Some((if text.Some? then text.value else "") + " ");
      } else if text.NoText? {
        text := child.text;
      } else if child.text.Some? {
        text := Some(text.value + child.text.value);
      }
      tree := tree.(text := text);
    }

    /** Child `i` joins the text `last` before it and is given up. */
    method JoinText(i: nat, last: DocNode, ghost region: set<DocNode>, ghost nodes: seq<DocNode>,
                    ghost done: seq<Node>, ghost ts: seq<Node>)
      requires i < |ts| == |children| && Forest(this, region, nodes, done + ts[i..]) && done != []
      requires children[i] == nodes[|done|] && last == nodes[|done| - 1] && this in region
      modifies last, this`children
      ensures children == old(children)[i := null]
      ensures Forest(this, region, nodes[..|done|] + nodes[|done| + 1..], Swallow(done, ts[i]) + ts[i + 1..])
    {
      ghost var k, vals := |done|, done + ts[i..];
      var child := children[i];
      assert Planted(this, region, child, vals[k]) && Planted(this, region, last, vals[k - 1]);
      last.Append(child);
      children := children[i := null];
      assert forall i :: 0 <= i < |nodes| ==> nodes[i].Repr == old(nodes[i].Repr);
      assert Forest(this, region, nodes, vals[k - 1 := last.tree]) by {
        forall i | 0 <= i < |nodes| ensures Planted(this, region, nodes[i], vals[k - 1 := last.tree][i]) {
          assert old(Planted(this, region, nodes[i], vals[i]));
        }
      }
      ForestWithout(this, region, nodes, vals[k - 1 := last.tree], k);
      SwallowInPlace(done, ts, i);
    }

    /** Normalises a child. */
    method FixChild(child: DocNode, ghost region: set<DocNode>, ghost nodes: seq<DocNode>,
                    ghost done: seq<Node>, ghost ts: seq<Node>, ghost i: nat)
      requires i < |ts| && Forest(this, region, nodes, done + ts[i..])
      requires child == nodes[|done|] && this in region
      modifies child.Repr
      ensures Forest(this, region, nodes, done + [Fix(ts[i])] + ts[i + 1..])
      decreases region, 0
    {
      ghost var k, vals := |done|, done + ts[i..];
      assert Planted(this, region, child, vals[k]);
      child.FixupTree();
      forall i | 0 <= i < |nodes|
        ensures Planted(this, region, nodes[i], vals[k := child.tree][i]) && nodes[i].Repr == old(nodes[i].Repr)
      {
        assert old(Planted(this, region, nodes[i], vals[i]));
        if i != k {
          assert old(nodes[i].Repr) !! old(child.Repr);
        }
      }
      FixInPlace(done, ts, i);
    }

    /** The first loop: texts and line breaks behind a text join it, every other child is normalised. */
    method MergeChildren(ghost region: set<DocNode>, ghost ts: seq<Node>)
      requires this in region && (forall i :: 0 <= i < |children| ==> children[i] != null)
      requires |children| == |ts| && Forest(this, region, children, ts)
      modifies region
      ensures text == old(text) && tree == old(tree) && Repr == old(Repr)
      ensures Forest(this, region, Kept(children), FixAll([], ts))
      decreases region, 1
    {
      hide Fix, FixAll, Kept, Swallow, Forest, Merging, Joins;
      ghost var cs: seq<DocNode> := children;
      ghost var nodes, done := cs, [];  // the nodes still there, and the values of those behind the loop
      var last: DocNode?, i := null, 0;
      MergeStart(children, cs, ts);
      while i < |children|
        invariant text == old(text) && tree == old(tree) && Repr == old(Repr)
        invariant i <= |children| == |ts| && |done| <= |nodes|
        invariant Merging(children, cs, ts, nodes, done, i)
        invariant Forest(this, region, nodes, done + ts[i..])
        invariant if done == [] then last == null else last == nodes[|done| - 1]
      {
        var child := children[i];
        ghost var slots, k := children, |done|;
        MergingAt(slots, cs, ts, nodes, done, i);
        NextChild(this, region, nodes, done, ts, i);
        if (child.id == TEXT || child.id == NL) && last != null && last.id == TEXT {
          MergingJoin(slots, cs, ts, nodes, done, i);
          JoinText(i, last, region, nodes, done, ts);
          nodes, done := nodes[..k] + nodes[k + 1..], Swallow(done, ts[i]);
        } else {
          MergingFix(slots, cs, ts, nodes, done, i);
          FixChild(child, region, nodes, done, ts, i);
          last := child;
          done := done + [Fix(ts[i])];
        }
        i := i + 1;
      }
      MergingEnd(children, cs, ts, nodes, done);
      assert ts[|ts|..] == [] && done + [] == done;
    }

    /** The second loop: moves the remaining children to the front. */
    method Compact()
      modifies this`children
      ensures children == Kept(old(children))
    {
      ghost var slots := children;
      var i, j := 0, 0;
      while i < |children|
        invariant 0 <= j <= i <= |children| == |slots|
        invariant children[i..] == slots[i..] && children[..j] == Kept(slots[..i])
      {
        KeptStep(slots, i);
        assert children[i] == children[i..][0] == slots[i];
        if children[i] != null {
          children := children[j := children[i]];
          j := j + 1;
        }
        assert children[i + 1..] == slots[i..][1..];
        i := i + 1;
      }
      assert slots[..i] == slots;
      children := children[..j];
    }

    /** Compacts the children and names the value of the whole tree. */
    method Finish(ghost ts: seq<Node>)
      requires this in Repr && Forest(this, Repr, Kept(children), ts)
      modifies this`children, this`tree
      ensures Valid() && tree == Node(id, text, ts)
    {
      ghost var nodes := Kept(children);
      Compact();
      tree := Node(id, text, ts);
      forall k | 0 <= k < |nodes| ensures Planted(this, Repr, nodes[k], ts[k]) {
        assert old(Planted(this, Repr, nodes[k], ts[k]));
      }
    }

    /** Strips the text, unless this is a text node. */
    method TrimText()
      requires Valid()
      modifies this`text
      ensures text == StripText(id, old(text)) && |children| == |tree.children|
      ensures forall i :: 0 <= i < |children| ==> children[i] != null
      ensures Forest(this, Repr, children, tree.children)
    {
      if id != TEXT && text.Some? {
        var stripped := StripTrailing(text.value);
        text := Some(stripped);
      }
      assert forall i :: 0 <= i < |children| ==> Planted(this, Repr, children[i], tree.children[i]);
    }

    /** Gives up a line break at the end. */
    method DropBreak()
      requires |children| == |tree.children| && (forall i :: 0 <= i < |children| ==> children[i] != null)
      requires this in Repr && Forest(this, Repr, children, tree.children)
      modifies this`children
      ensures |children| == |DropFinal(tree.children)| && forall i :: 0 <= i < |children| ==> children[i] != null
      ensures Forest(this, Repr, children, DropFinal(tree.children))
    {
      if children != [] && children[|children| - 1].id == NL {
        children := children[..|children| - 1];
      }
      assert forall i :: 0 <= i < |children| ==> old(Planted(this, Repr, children[i], tree.children[i]));
      assert forall i :: 0 <= i < |children| ==> Planted(this, Repr, children[i], tree.children[i]);
    }

    /** doc_node_fixup_tree. */
    method FixupTree()
      requires Valid()
      modifies Repr
      ensures Valid() && Repr == old(Repr)
      ensures tree == Fix(old(tree))
      decreases Repr, 2
    {
      hide Forest;
      ghost var ts := DropFinal(tree.children);
      TrimText();
      DropBreak();
      MergeChildren(Repr, ts);
      Finish(FixAll([], ts));
    }
  }
}
