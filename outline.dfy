/**
 * The heading outline of a document, as the table-of-contents plugin builds it: a first pass
 * finds the smallest heading depth, a second pass keeps a stack of open outline nodes and
 * hangs each heading under the right one, inserting empty placeholder nodes where the depth
 * jumps by more than one.
 */
module HeadingOutline {
  import opened Mdast

  datatype HeadingTree = HeadingTree(text: string, children: seq<HeadingTree>)

  /** What the second pass reads of a heading: its depth and its plain text. */
  datatype HeadingInfo = HeadingInfo(depth: int, text: string)

  function Leaf(text: string): HeadingTree {
    HeadingTree(text, [])
  }

  // ----- the headings, as `visit(root, "heading", ...)` meets them -----

  function Headings(ns: seq<MdNode>): seq<HeadingInfo> {
    if ns == [] then [] else HeadingsIn(ns[0]) + Headings(ns[1..])
  }

  function HeadingsIn(n: MdNode): seq<HeadingInfo> {
    match n
    case Parent(k, cs) =>
      (if k.Heading? then [HeadingInfo(k.depth, ToStrings(cs))] else []) + Headings(cs)
    case _ => []
  }

  // ----- first pass: the smallest depth -----

  /** A depth bound; `Infinity` is the initial value of `minDepth`. */
  datatype Bound = Finite(value: int) | Infinity

  predicate LessThan(d: int, b: Bound) {
    b.Infinity? || d < b.value
  }

  /** The smallest depth among `hs`, `Infinity` when there is none. */
  function MinDepthOf(hs: seq<HeadingInfo>): (b: Bound)
    ensures b.Infinity? <==> hs == []
    ensures b.Finite? ==> forall i :: 0 <= i < |hs| ==> b.value <= hs[i].depth
    ensures b.Finite? ==> exists i :: 0 <= i < |hs| && hs[i].depth == b.value
  {
    if hs == [] then Infinity
    else
      var m := MinDepthOf(hs[..|hs| - 1]);
      var d := hs[|hs| - 1].depth;
      if LessThan(d, m) then Finite(d) else m
  }

  /** `if (node.depth < minDepth) minDepth = node.depth` over every heading. */
  method MinDepth(hs: seq<HeadingInfo>) returns (minDepth: Bound)
    ensures minDepth == MinDepthOf(hs)
  {
    minDepth := Infinity;
    for i := 0 to |hs|
      invariant minDepth == MinDepthOf(hs[..i])
    {
      assert hs[..i + 1][..i] == hs[..i];
      if LessThan(hs[i].depth, minDepth) {
        minDepth := Finite(hs[i].depth);
      }
    }
    assert hs[..|hs|] == hs;
  }

  /** The outline level of a heading: the shallowest heading is level 1. */
  function Level(depth: int, minDepth: int): int {
    depth - minDepth + 1
  }

  // ----- second pass: the stack of open nodes -----
  // The stack holds the open outline nodes from the root down. A node joins its parent's
  // children when it is popped (or when the outline is closed at the end); until then its
  // parent does not list it, so the stack stays a plain sequence of values.

  function Attach(parent: HeadingTree, child: HeadingTree): HeadingTree {
    HeadingTree(parent.text, parent.children + [child])
  }

  /** `headingStack.pop()`: the popped node becomes the last child of the node below it. */
  function Pop(stack: seq<HeadingTree>): (r: seq<HeadingTree>)
    requires |stack| >= 2
    ensures |r| == |stack| - 1 && r[0].text == stack[0].text
  {
    stack[..|stack| - 2] + [Attach(stack[|stack| - 2], stack[|stack| - 1])]
  }

  /** `while (depth > headingStack.length)`: push empty placeholders. */
  function Grow(stack: seq<HeadingTree>, level: int): (r: seq<HeadingTree>)
    requires |stack| >= 1
    ensures |r| == if level > |stack| then level else |stack|
    ensures r[0] == stack[0]
    decreases level - |stack|
  {
    if level > |stack| then Grow(stack + [Leaf("")], level) else stack
  }

  /** `while (depth < headingStack.length) headingStack.pop()`. */
  function Shrink(stack: seq<HeadingTree>, level: int): (r: seq<HeadingTree>)
    requires |stack| >= 1 && level >= 1
    ensures |r| == if level < |stack| then level else |stack|
    ensures r[0].text == stack[0].text
    decreases |stack|
  {
    if level < |stack| then Shrink(Pop(stack), level) else stack
  }

  /** One heading at `level`: grow, shrink, then push the heading's own node. */
  function Place(stack: seq<HeadingTree>, level: int, text: string): (r: seq<HeadingTree>)
    requires |stack| >= 1 && level >= 1
    ensures |r| == level + 1 && r[level] == Leaf(text)
    ensures r[0].text == stack[0].text
  {
    Shrink(Grow(stack, level), level) + [Leaf(text)]
  }

  /** The visitor callback of the second pass, for a heading at `level`. */
  method PlaceHeading(stack: seq<HeadingTree>, level: int, text: string) returns (s: seq<HeadingTree>)
    requires |stack| >= 1 && level >= 1
    ensures s == Place(stack, level, text)
    ensures |s| == level + 1 && s[level] == Leaf(text)
  {
    s := stack;
    while level > |s|
      invariant |s| >= 1
      invariant Grow(s, level) == Grow(stack, level)
      decreases level - |s|
    {
      s := s + [Leaf("")];
    }
    while level < |s|
      invariant |s| >= 1
      invariant Shrink(s, level) == Shrink(Grow(stack, level), level)
      decreases |s|
    {
      s := Pop(s);
    }
    s := s + [Leaf(text)];
  }

  predicate DepthsFrom(hs: seq<HeadingInfo>, minDepth: int) {
    forall i :: 0 <= i < |hs| ==> minDepth <= hs[i].depth
  }

  /** The stack after the headings `hs`, starting from the lone root. */
  function Steps(hs: seq<HeadingInfo>, minDepth: int): (r: seq<HeadingTree>)
    requires DepthsFrom(hs, minDepth)
    ensures |r| >= 1 && r[0].text == ""
    ensures hs != [] ==> |r| == Level(hs[|hs| - 1].depth, minDepth) + 1
  {
    if hs == [] then [Leaf("")]
    else
      var last := hs[|hs| - 1];
      Place(Steps(hs[..|hs| - 1], minDepth), Level(last.depth, minDepth), last.text)
  }

  /** The finished outline: every node still open joins its parent. */
  function Close(stack: seq<HeadingTree>): (r: HeadingTree)
    requires |stack| >= 1
    ensures r.text == stack[0].text
    decreases |stack|
  {
    if |stack| == 1 then stack[0] else Close(Pop(stack))
  }

  /** The outline of a document's headings; its root has empty text. */
  function Outline(hs: seq<HeadingInfo>): HeadingTree {
    match MinDepthOf(hs)
    case Infinity => Leaf("")
    case Finite(m) => Close(Steps(hs, m))
  }

  /** The two passes of the table-of-contents plugin that build the outline. */
  method BuildOutline(hs: seq<HeadingInfo>) returns (tree: HeadingTree)
    ensures tree == Outline(hs)
    ensures tree.text == "" && Preorder(tree.children, 1) == LinesOf(Plan(hs))
  {
    var minDepth := MinDepth(hs);
    var headingStack := [Leaf("")];
    for i := 0 to |hs|
      invariant minDepth.Finite? ==> DepthsFrom(hs[..i], minDepth.value)
      invariant minDepth.Finite? ==> headingStack == Steps(hs[..i], minDepth.value)
      invariant minDepth.Infinity? ==> headingStack == [Leaf("")]
    {
      assert hs[..i + 1][..i] == hs[..i];
      var depth := Level(hs[i].depth, minDepth.value);
      headingStack := PlaceHeading(headingStack, depth, hs[i].text);
    }
    assert hs[..|hs|] == hs;
    tree := Close(headingStack);
    OutlinePreorder(hs);
  }

  // ----- what the outline looks like -----

  /** A node of the outline seen in a preorder walk: its text and its level (the root is level 0). */
  datatype Line = Line(text: string, level: int)

  function Preorder(ts: seq<HeadingTree>, level: int): seq<Line>
    decreases ts
  {
    if ts == [] then []
    else
      var last := ts[|ts| - 1];
      Preorder(ts[..|ts| - 1], level) + [Line(last.text, level)] + Preorder(last.children, level + 1)
  }

  /** One slot of the planned outline: a heading, or a placeholder filling a skipped level. */
  datatype Slot = Placeholder(level: int) | Entry(text: string, level: int)

  function LineOf(s: Slot): Line {
    match s
    case Placeholder(l) => Line("", l)
    case Entry(t, l) => Line(t, l)
  }

  function LinesOf(p: seq<Slot>): (r: seq<Line>)
    ensures |r| == |p|
  {
    if p == [] then [] else [LineOf(p[0])] + LinesOf(p[1..])
  }

  /** The placeholders for the levels `from` up to `to - 1`. */
  function Fillers(from: int, to: int): (r: seq<Slot>)
    ensures |r| == (if from < to then to - from else 0)
    ensures forall k :: 0 <= k < |r| ==> r[k] == Placeholder(from + k)
    decreases if from < to then to - from else 0
  {
    if from < to then [Placeholder(from)] + Fillers(from + 1, to) else []
  }

  /** The level the previous heading left the stack at (0 before the first heading). */
  function PrevLevel(hs: seq<HeadingInfo>, minDepth: int): int {
    if hs == [] then 0 else Level(hs[|hs| - 1].depth, minDepth)
  }

  /** The outline in preorder, slot by slot: each heading preceded by the placeholders of its jump. */
  function PlanFrom(hs: seq<HeadingInfo>, minDepth: int): seq<Slot> {
    if hs == [] then []
    else
      var init, last := hs[..|hs| - 1], hs[|hs| - 1];
      var level := Level(last.depth, minDepth);
      PlanFrom(init, minDepth) + Fillers(PrevLevel(init, minDepth) + 1, level) + [Entry(last.text, level)]
  }

  function Plan(hs: seq<HeadingInfo>): seq<Slot> {
    match MinDepthOf(hs)
    case Infinity => []
    case Finite(m) => PlanFrom(hs, m)
  }

  /** The headings, each with its level, in document order. */
  function Leveled(hs: seq<HeadingInfo>, minDepth: int): seq<Line> {
    if hs == [] then []
    else Leveled(hs[..|hs| - 1], minDepth) + [Line(hs[|hs| - 1].text, Level(hs[|hs| - 1].depth, minDepth))]
  }

  /** The heading slots of a plan, as lines. */
  function Entries(p: seq<Slot>): seq<Line> {
    if p == [] then [] else (if p[0].Entry? then [LineOf(p[0])] else []) + Entries(p[1..])
  }

  // ----- lemmas: the stack walk -----

  /** The preorder walk of the first `k` open nodes, each with what it holds so far. */
  function OpenLines(stack: seq<HeadingTree>, k: int): seq<Line>
    requires 1 <= k <= |stack|
    decreases k
  {
    if k == 1 then Preorder(stack[0].children, 1)
    else OpenLines(stack, k - 1) + [Line(stack[k - 1].text, k - 1)] + Preorder(stack[k - 1].children, k)
  }

  lemma PreorderAppend(ts: seq<HeadingTree>, t: HeadingTree, level: int)
    ensures Preorder(ts + [t], level)
         == Preorder(ts, level) + [Line(t.text, level)] + Preorder(t.children, level + 1)
  {
    assert (ts + [t])[..|ts|] == ts;
  }

  lemma {:induction false} OpenLinesPrefix(s: seq<HeadingTree>, t: seq<HeadingTree>, k: int)
    requires 1 <= k <= |s| && k <= |t| && s[..k] == t[..k]
    ensures OpenLines(s, k) == OpenLines(t, k)
    decreases k
  {
    assert s[k - 1] == s[..k][k - 1] && t[k - 1] == t[..k][k - 1];
    if k > 1 {
      assert s[..k - 1] == s[..k][..k - 1] && t[..k - 1] == t[..k][..k - 1];
      OpenLinesPrefix(s, t, k - 1);
    }
  }

  lemma StackLinesPush(stack: seq<HeadingTree>, t: HeadingTree)
    requires |stack| >= 1
    ensures OpenLines(stack + [t], |stack + [t]|)
         == OpenLines(stack, |stack|) + [Line(t.text, |stack|)] + Preorder(t.children, |stack| + 1)
  {
    var pushed, n := stack + [t], |stack|;
    assert pushed[..n] == stack[..n];
    OpenLinesPrefix(pushed, stack, n);
  }

  lemma PopKeepsLines(stack: seq<HeadingTree>)
    requires |stack| >= 2
    ensures OpenLines(Pop(stack), |Pop(stack)|) == OpenLines(stack, |stack|)
  {
    var n := |stack|;
    var popped := Pop(stack);
    var parent, top := stack[n - 2], stack[n - 1];
    assert popped[n - 2] == Attach(parent, top);
    var P := Preorder(parent.children, n - 1);
    var T := Preorder(top.children, n);
    var lt := Line(top.text, n - 1);
    assert Preorder(popped[n - 2].children, n - 1) == P + [lt] + T by {
      PreorderAppend(parent.children, top, n - 1);
    }
    if n == 2 {
      assert OpenLines(stack, 2) == P + [lt] + T;
    } else {
      var A := OpenLines(stack, n - 2);
      var lp := Line(parent.text, n - 2);
      assert OpenLines(popped, n - 2) == A by {
        assert popped[..n - 2] == stack[..n - 2];
        OpenLinesPrefix(popped, stack, n - 2);
      }
      assert OpenLines(popped, n - 1) == A + [lp] + (P + [lt] + T);
      assert OpenLines(stack, n) == (A + [lp] + P) + [lt] + T;
    }
  }

  lemma {:induction false} CloseLines(stack: seq<HeadingTree>)
    requires |stack| >= 1
    ensures Preorder(Close(stack).children, 1) == OpenLines(stack, |stack|)
    decreases |stack|
  {
    if |stack| > 1 {
      PopKeepsLines(stack);
      CloseLines(Pop(stack));
    }
  }

  lemma {:induction false} LinesOfAppend(a: seq<Slot>, b: seq<Slot>)
    ensures LinesOf(a + b) == LinesOf(a) + LinesOf(b)
  {
    if a == [] {
      assert a + b == b;
    } else {
      assert (a + b)[1..] == a[1..] + b;
      LinesOfAppend(a[1..], b);
    }
  }

  lemma {:induction false} GrowLines(stack: seq<HeadingTree>, level: int)
    requires |stack| >= 1
    ensures OpenLines(Grow(stack, level), |Grow(stack, level)|) == OpenLines(stack, |stack|) + LinesOf(Fillers(|stack|, level))
    decreases level - |stack|
  {
    if level > |stack| {
      var next := stack + [Leaf("")];
      var rest := Fillers(|stack| + 1, level);
      StackLinesPush(stack, Leaf(""));
      assert OpenLines(next, |next|) == OpenLines(stack, |stack|) + [Line("", |stack|)];
      GrowLines(next, level);
      assert Grow(stack, level) == Grow(next, level);
      assert LinesOf(Fillers(|stack|, level)) == [Line("", |stack|)] + LinesOf(rest) by {
        assert Fillers(|stack|, level) == [Placeholder(|stack|)] + rest;
        LinesOfAppend([Placeholder(|stack|)], rest);
      }
    }
  }

  lemma {:induction false} ShrinkLines(stack: seq<HeadingTree>, level: int)
    requires |stack| >= 1 && level >= 1
    ensures OpenLines(Shrink(stack, level), |Shrink(stack, level)|) == OpenLines(stack, |stack|)
    decreases |stack|
  {
    if level < |stack| {
      PopKeepsLines(stack);
      ShrinkLines(Pop(stack), level);
    }
  }

  lemma PlaceLines(stack: seq<HeadingTree>, level: int, text: string)
    requires |stack| >= 1 && level >= 1
    ensures OpenLines(Place(stack, level, text), |Place(stack, level, text)|)
         == OpenLines(stack, |stack|) + LinesOf(Fillers(|stack|, level)) + [Line(text, level)]
  {
    var grown := Grow(stack, level);
    GrowLines(stack, level);
    ShrinkLines(grown, level);
    var shrunk := Shrink(grown, level);
    StackLinesPush(shrunk, Leaf(text));
  }

  lemma {:induction false} StepsLines(hs: seq<HeadingInfo>, minDepth: int)
    requires DepthsFrom(hs, minDepth)
    ensures OpenLines(Steps(hs, minDepth), |Steps(hs, minDepth)|) == LinesOf(PlanFrom(hs, minDepth))
  {
    if hs != [] {
      var init, last := hs[..|hs| - 1], hs[|hs| - 1];
      var level := Level(last.depth, minDepth);
      StepsLines(init, minDepth);
      var before := Steps(init, minDepth);
      assert |before| == PrevLevel(init, minDepth) + 1;
      PlaceLines(before, level, last.text);
      var fill := Fillers(PrevLevel(init, minDepth) + 1, level);
      LinesOfAppend(PlanFrom(init, minDepth) + fill, [Entry(last.text, level)]);
      LinesOfAppend(PlanFrom(init, minDepth), fill);
    }
  }

  /**
   * The outline's root has empty text, and a preorder walk of the outline (each node with its
   * level) is exactly the plan: every heading at its level, preceded by the placeholders of
   * the levels its depth jumped over.
   */
  lemma OutlinePreorder(hs: seq<HeadingInfo>)
    ensures Outline(hs).text == ""
    ensures Preorder(Outline(hs).children, 1) == LinesOf(Plan(hs))
  {
    match MinDepthOf(hs)
    case Infinity =>
    case Finite(m) =>
      CloseLines(Steps(hs, m));
      StepsLines(hs, m);
  }

  // ----- lemmas: the plan -----

  lemma {:induction false} EntriesAppend(a: seq<Slot>, b: seq<Slot>)
    ensures Entries(a + b) == Entries(a) + Entries(b)
  {
    if a == [] {
      assert a + b == b;
    } else {
      var head: seq<Line> := if a[0].Entry? then [LineOf(a[0])] else [];
      assert (a + b)[0] == a[0] && (a + b)[1..] == a[1..] + b;
      assert Entries(a + b) == head + Entries(a[1..] + b);
      assert Entries(a) == head + Entries(a[1..]);
      EntriesAppend(a[1..], b);
    }
  }

  lemma {:induction false} EntriesOfFillers(from: int, to: int)
    ensures Entries(Fillers(from, to)) == []
    decreases if from < to then to - from else 0
  {
    if from < to {
      EntriesOfFillers(from + 1, to);
    }
  }

  /** Leaving the placeholders out, the plan lists every heading once, in document order, at its level. */
  lemma {:induction false} PlanEntries(hs: seq<HeadingInfo>, minDepth: int)
    ensures Entries(PlanFrom(hs, minDepth)) == Leveled(hs, minDepth)
  {
    if hs != [] {
      var init, last := hs[..|hs| - 1], hs[|hs| - 1];
      var level := Level(last.depth, minDepth);
      var fill := Fillers(PrevLevel(init, minDepth) + 1, level);
      PlanEntries(init, minDepth);
      EntriesAppend(PlanFrom(init, minDepth) + fill, [Entry(last.text, level)]);
      EntriesAppend(PlanFrom(init, minDepth), fill);
      EntriesOfFillers(PrevLevel(init, minDepth) + 1, level);
    }
  }

  /** The levels of a plan can describe a tree: it starts at level 1 and never goes down more than one level at a time. */
  predicate WellNested(p: seq<Slot>) {
    && (p != [] ==> p[0].level == 1)
    && PositiveLevels(p)
    && SmallSteps(p)
  }

  predicate PositiveLevels(p: seq<Slot>) {
    forall i :: 0 <= i < |p| ==> p[i].level >= 1
  }

  predicate SmallSteps(p: seq<Slot>) {
    forall i :: 0 <= i < |p| - 1 ==> p[i + 1].level <= p[i].level + 1
  }

  /** Every placeholder has a child: the slot after it is one level deeper. */
  predicate PlaceholdersHaveChildren(p: seq<Slot>) {
    forall i :: 0 <= i < |p| ==> p[i].Placeholder? ==> i + 1 < |p| && p[i + 1].level == p[i].level + 1
  }

  /** What one heading adds to the plan: the placeholders of its jump, then its own entry. */
  lemma TailShape(prev: int, level: int, text: string)
    requires prev >= 0 && level >= 1
    ensures var q := Fillers(prev + 1, level) + [Entry(text, level)];
      && q[0].level <= prev + 1
      && (prev == 0 ==> q[0].level == 1)
      && q[|q| - 1] == Entry(text, level)
      && PositiveLevels(q) && SmallSteps(q) && PlaceholdersHaveChildren(q)
  {
    var fill := Fillers(prev + 1, level);
    var q := fill + [Entry(text, level)];
    forall i | 0 <= i < |fill|
      ensures q[i] == fill[i] == Placeholder(prev + 1 + i)
    {
    }
  }

  /** Two plans joined where the second starts at most one level below the end of the first. */
  lemma JoinShape(a: seq<Slot>, b: seq<Slot>)
    requires PositiveLevels(a) && SmallSteps(a) && PlaceholdersHaveChildren(a)
    requires PositiveLevels(b) && SmallSteps(b) && PlaceholdersHaveChildren(b)
    requires a != [] && b != [] ==> a[|a| - 1].Entry? && b[0].level <= a[|a| - 1].level + 1
    ensures PositiveLevels(a + b) && SmallSteps(a + b) && PlaceholdersHaveChildren(a + b)
  {
    var p := a + b;
    forall i | 0 <= i < |p| ensures p[i].level >= 1 {
      if i < |a| { assert p[i] == a[i]; } else { assert p[i] == b[i - |a|]; }
    }
    forall i | 0 <= i < |p| - 1 ensures p[i + 1].level <= p[i].level + 1 {
      if i + 1 < |a| {
        assert p[i] == a[i] && p[i + 1] == a[i + 1];
      } else if i + 1 == |a| {
        assert p[i] == a[i] && p[i + 1] == b[0];
      } else {
        assert p[i] == b[i - |a|] && p[i + 1] == b[i + 1 - |a|];
      }
    }
    forall i | 0 <= i < |p| && p[i].Placeholder? ensures i + 1 < |p| && p[i + 1].level == p[i].level + 1 {
      if i < |a| {
        assert p[i] == a[i];
        assert p[i + 1] == a[i + 1];
      } else {
        var j := i - |a|;
        assert b[j] == p[i] && b[j].Placeholder?;
        assert j + 1 < |b| && b[j + 1].level == b[j].level + 1;
        assert p[i + 1] == b[j + 1];
      }
    }
  }

  /**
   * The plan can be read back as a tree: it starts at level 1, never jumps down more than
   * one level, every placeholder is followed by its child, and it ends with the last heading.
   */
  lemma {:induction false} PlanShape(hs: seq<HeadingInfo>, minDepth: int)
    requires DepthsFrom(hs, minDepth)
    ensures WellNested(PlanFrom(hs, minDepth))
    ensures PlaceholdersHaveChildren(PlanFrom(hs, minDepth))
    ensures hs != [] ==> var p := PlanFrom(hs, minDepth);
      p != [] && p[|p| - 1] == Entry(hs[|hs| - 1].text, PrevLevel(hs, minDepth))
  {
    if hs != [] {
      var init, last := hs[..|hs| - 1], hs[|hs| - 1];
      var level := Level(last.depth, minDepth);
      var prev := PrevLevel(init, minDepth);
      var p0 := PlanFrom(init, minDepth);
      var q := Fillers(prev + 1, level) + [Entry(last.text, level)];
      PlanShape(init, minDepth);
      TailShape(prev, level, last.text);
      JoinShape(p0, q);
      var p: seq<Slot> := p0 + q;
      assert PlanFrom(hs, minDepth) == p;
      assert p[0].level == 1 by {
        if p0 == [] { assert p[0] == q[0]; } else { assert p[0] == p0[0]; }
      }
      assert p[|p| - 1] == q[|q| - 1];
    }
  }
}
