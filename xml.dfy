/** A small model of an ElementTree element and of the ElementPath searches the core
    uses (`find`, `findall`, `iter`, `.//` paths), over immutable values.

    A node of the mutable tree is identified by its position: the sequence of child
    indices that leads to it from the root. Changing a node in place is modelled as
    replacing the subtree at its position. */
module Xml {
  import opened Wrappers
  import opened Seqs

  /** `tag`, the attribute dictionary in insertion order, `text` (`None` when the
      element has none) and the child elements. */
  datatype Element = Element(tag: string, attrs: seq<(string, string)>, text: Option<string>, children: seq<Element>)

  /** `Element(tag)`: no attributes, no text, no children. */
  function NewElement(tag: string): Element {
    Element(tag, [], None, [])
  }

  /** `SubElement(e, c.tag)` filled in as `c`: `c` becomes the last child. */
  function AppendChild(e: Element, c: Element): Element {
    e.(children := e.children + [c])
  }

  // ---------------------------------------------------------------- attributes

  predicate HasAttr(attrs: seq<(string, string)>, name: string) {
    exists k :: 0 <= k < |attrs| && attrs[k].0 == name
  }

  /** `element.get(name)`. */
  function GetAttr(attrs: seq<(string, string)>, name: string): (r: Option<string>)
    ensures r.Some? <==> HasAttr(attrs, name)
    ensures r.Some? ==> (name, r.value) in attrs
  {
    if attrs == [] then None
    else if attrs[0].0 == name then Some(attrs[0].1)
    else
      var r := GetAttr(attrs[1..], name);
      assert HasAttr(attrs, name) ==> HasAttr(attrs[1..], name) by {
        if HasAttr(attrs, name) {
          var k :| 0 <= k < |attrs| && attrs[k].0 == name;
          assert attrs[1..][k - 1].0 == name;
        }
      }
      r
  }

  /** `element.set(name, value)`: the entry for `name` takes the new value where it is,
      or is added at the end. */
  function SetAttr(attrs: seq<(string, string)>, name: string, value: string): (r: seq<(string, string)>)
    ensures |r| == |attrs| + (if HasAttr(attrs, name) then 0 else 1)
    ensures forall k :: 0 <= k < |attrs| ==> r[k] == (if attrs[k].0 == name then (name, value) else attrs[k])
    ensures !HasAttr(attrs, name) ==> r[|attrs|] == (name, value)
  {
    var replaced := seq(|attrs|, k requires 0 <= k < |attrs| => if attrs[k].0 == name then (name, value) else attrs[k]);
    if HasAttr(attrs, name) then replaced else replaced + [(name, value)]
  }

  lemma {:induction false} GetAttrValue(attrs: seq<(string, string)>, name: string, value: string)
    requires HasAttr(attrs, name)
    requires forall k :: 0 <= k < |attrs| && attrs[k].0 == name ==> attrs[k].1 == value
    ensures GetAttr(attrs, name) == Some(value)
  {
    if attrs[0].0 != name {
      var k :| 0 <= k < |attrs| && attrs[k].0 == name;
      assert attrs[1..][k - 1].0 == name;
      GetAttrValue(attrs[1..], name, value);
    }
  }

  lemma {:induction false} GetAttrSame(a: seq<(string, string)>, b: seq<(string, string)>, name: string)
    requires |a| <= |b|
    requires forall k :: 0 <= k < |a| ==> (a[k].0 == name <==> b[k].0 == name) && (a[k].0 == name ==> a[k].1 == b[k].1)
    requires forall k :: |a| <= k < |b| ==> b[k].0 != name
    ensures GetAttr(a, name) == GetAttr(b, name)
  {
    if a != [] && a[0].0 != name {
      GetAttrSame(a[1..], b[1..], name);
    } else if a == [] {
      assert !HasAttr(b, name);
    }
  }

  /** After `set`, `get` returns the value set, and every other name reads as before. */
  lemma {:induction false} SetAttrGet(attrs: seq<(string, string)>, name: string, value: string, other: string)
    ensures GetAttr(SetAttr(attrs, name, value), name) == Some(value)
    ensures other != name ==> GetAttr(SetAttr(attrs, name, value), other) == GetAttr(attrs, other)
  {
    var r := SetAttr(attrs, name, value);
    if HasAttr(attrs, name) {
      var k :| 0 <= k < |attrs| && attrs[k].0 == name;
      assert r[k].0 == name;
    } else {
      assert r[|attrs|].0 == name;
    }
    GetAttrValue(r, name, value);
    if other != name {
      GetAttrSame(attrs, r, other);
    }
  }

  /** Setting an attribute to the value it already has everywhere changes nothing. */
  lemma {:induction false} SetAttrAgain(attrs: seq<(string, string)>, name: string, value: string)
    ensures SetAttr(SetAttr(attrs, name, value), name, value) == SetAttr(attrs, name, value)
  {
    var r := SetAttr(attrs, name, value);
    if HasAttr(attrs, name) {
      var k :| 0 <= k < |attrs| && attrs[k].0 == name;
      assert r[k].0 == name;
    } else {
      assert r[|attrs|].0 == name;
    }
    assert HasAttr(r, name);
  }

  // ---------------------------------------------------------------- positions

  /** `pos` leads from `e` to one of its descendants (or, when empty, to `e` itself). */
  predicate ValidPos(e: Element, pos: seq<nat>)
    decreases |pos|
  {
    pos == [] || (pos[0] < |e.children| && ValidPos(e.children[pos[0]], pos[1..]))
  }

  /** The node at position `pos`. */
  function At(e: Element, pos: seq<nat>): Element
    requires ValidPos(e, pos)
    decreases |pos|
  {
    if pos == [] then e else At(e.children[pos[0]], pos[1..])
  }

  /** The tree in which the node at `pos` is replaced by `x`: the value-level image of
      changing that node in place. */
  function ReplaceAt(e: Element, pos: seq<nat>, x: Element): Element
    requires ValidPos(e, pos)
    decreases |pos|
  {
    if pos == [] then x
    else e.(children := e.children[pos[0] := ReplaceAt(e.children[pos[0]], pos[1..], x)])
  }

  /** Neither position lies on the path to the other. */
  predicate Diverge(p: seq<nat>, q: seq<nat>)
    decreases |p|
  {
    p != [] && q != [] && (p[0] != q[0] || Diverge(p[1..], q[1..]))
  }

  predicate IsPrefix(q: seq<nat>, p: seq<nat>) {
    |q| <= |p| && p[..|q|] == q
  }

  /** What is at the replaced position afterwards is the new node. */
  lemma {:induction false} ReplaceAtHere(e: Element, pos: seq<nat>, x: Element)
    requires ValidPos(e, pos)
    ensures ValidPos(ReplaceAt(e, pos, x), pos) && At(ReplaceAt(e, pos, x), pos) == x
    decreases |pos|
  {
    if pos != [] {
      ReplaceAtHere(e.children[pos[0]], pos[1..], x);
    }
  }

  /** Every node off the path to the replaced one is unchanged, and keeps its position. */
  lemma {:induction false} ReplaceAtElsewhere(e: Element, pos: seq<nat>, x: Element, q: seq<nat>)
    requires ValidPos(e, pos) && ValidPos(e, q) && Diverge(pos, q)
    ensures ValidPos(ReplaceAt(e, pos, x), q) && At(ReplaceAt(e, pos, x), q) == At(e, q)
    decreases |pos|
  {
    if pos[0] == q[0] {
      ReplaceAtElsewhere(e.children[pos[0]], pos[1..], x, q[1..]);
    }
  }

  /** An ancestor of the replaced node keeps its position, and its subtree changes
      only by the same replacement. */
  lemma {:induction false} ReplaceAtAncestor(e: Element, pos: seq<nat>, x: Element, q: seq<nat>)
    requires ValidPos(e, pos) && IsPrefix(q, pos)
    ensures ValidPos(e, q) && ValidPos(At(e, q), pos[|q|..])
    ensures ValidPos(ReplaceAt(e, pos, x), q)
    ensures At(ReplaceAt(e, pos, x), q) == ReplaceAt(At(e, q), pos[|q|..], x)
    decreases |q|
  {
    if q != [] {
      assert pos[1..][..|q| - 1] == q[1..];
      ReplaceAtAncestor(e.children[pos[0]], pos[1..], x, q[1..]);
      assert pos[1..][|q| - 1..] == pos[|q|..];
    }
  }

  /** Two positions of the same length are equal or diverge. */
  lemma {:induction false} SameLengthDiverge(p: seq<nat>, q: seq<nat>)
    requires |p| == |q| && p != q
    ensures Diverge(p, q)
    decreases |p|
  {
    if p[0] == q[0] {
      assert p == [p[0]] + p[1..] && q == [q[0]] + q[1..];
      SameLengthDiverge(p[1..], q[1..]);
    }
  }

  // ---------------------------------------------------------------- ElementPath

  /** One step of an ElementPath expression: `tag` selects matching children,
      `.//tag` matching descendants at any depth. */
  datatype Step = Child(tag: string) | Desc(tag: string)

  predicate ChildPath(path: seq<Step>) {
    forall k :: 0 <= k < |path| ==> path[k].Child?
  }

  /** `q` follows the child-only path `path` from `e`, tag by tag. */
  predicate MatchesAt(e: Element, path: seq<Step>, q: seq<nat>)
    decreases |q|
  {
    |q| == |path| &&
    (q == [] || (q[0] < |e.children| && e.children[q[0]].tag == path[0].tag
                 && MatchesAt(e.children[q[0]], path[1..], q[1..])))
  }

  function Prefixed(i: nat, ps: seq<seq<nat>>): (r: seq<seq<nat>>)
    ensures |r| == |ps| && forall k :: 0 <= k < |ps| ==> r[k] == [i] + ps[k]
  {
    seq(|ps|, k requires 0 <= k < |ps| => [i] + ps[k])
  }

  /** The positions `findall(path)` visits, in document order; an empty path selects
      `e` itself. */
  function AllPos(e: Element, path: seq<Step>): seq<seq<nat>>
    decreases e, 1, 0, 0
  {
    if path == [] then [[]] else AllFrom(e, 0, path[0], path[1..])
  }

  /** The positions under children `i..` of `e` that `[step] + rest` selects, child
      by child. */
  function AllFrom(e: Element, i: nat, step: Step, rest: seq<Step>): seq<seq<nat>>
    requires i <= |e.children|
    decreases e, 0, |e.children| - i, 1
  {
    if i == |e.children| then [] else AllAt(e, i, step, rest) + AllFrom(e, i + 1, step, rest)
  }

  /** The positions at or below child `i` that `[step] + rest` selects: the child
      itself when its tag matches, then (for `.//`) its matching descendants. */
  function AllAt(e: Element, i: nat, step: Step, rest: seq<Step>): seq<seq<nat>>
    requires i < |e.children|
    decreases e, 0, |e.children| - i, 0
  {
    var c := e.children[i];
    (if c.tag == step.tag then Prefixed(i, AllPos(c, rest)) else [])
    + (if step.Desc? then Prefixed(i, AllFrom(c, 0, step, rest)) else [])
  }

  /** Every position found is a node of `e` whose tag is the last step's, and for a
      child-only path it follows the path tag by tag. */
  lemma {:induction false} AllPosSound(e: Element, path: seq<Step>)
    ensures forall q :: q in AllPos(e, path) ==> ValidPos(e, q)
    ensures path != [] ==> forall q :: q in AllPos(e, path) ==> At(e, q).tag == path[|path| - 1].tag
    ensures ChildPath(path) ==> forall q :: q in AllPos(e, path) ==> MatchesAt(e, path, q)
  {
    forall q | q in AllPos(e, path)
      ensures ValidPos(e, q) && (path != [] ==> At(e, q).tag == path[|path| - 1].tag)
      ensures ChildPath(path) ==> MatchesAt(e, path, q)
    {
      AllPosSoundAt(e, path, q);
    }
  }

  lemma {:induction false} AllFromSound(e: Element, i: nat, step: Step, rest: seq<Step>)
    requires i <= |e.children|
    ensures forall q :: q in AllFrom(e, i, step, rest) ==> q != [] && i <= q[0] && ValidPos(e, q)
    ensures forall q :: q in AllFrom(e, i, step, rest) ==> At(e, q).tag == ([step] + rest)[|rest|].tag
  {
    forall q | q in AllFrom(e, i, step, rest)
      ensures q != [] && i <= q[0] && ValidPos(e, q) && At(e, q).tag == ([step] + rest)[|rest|].tag
    {
      AllFromSoundAt(e, i, step, rest, q);
    }
  }

  /** One position found by `AllPos`. */
  lemma {:induction false} AllPosSoundAt(e: Element, path: seq<Step>, q: seq<nat>)
    requires q in AllPos(e, path)
    ensures ValidPos(e, q)
    ensures path != [] ==> At(e, q).tag == path[|path| - 1].tag
    ensures ChildPath(path) ==> MatchesAt(e, path, q)
    decreases e, 1, 0
  {
    if path != [] {
      AllFromSoundAt(e, 0, path[0], path[1..], q);
      assert [path[0]] + path[1..] == path;
    }
  }

  /** One position found by `AllFrom`. */
  lemma {:induction false} AllFromSoundAt(e: Element, i: nat, step: Step, rest: seq<Step>, q: seq<nat>)
    requires i <= |e.children| && q in AllFrom(e, i, step, rest)
    ensures q != [] && i <= q[0] && ValidPos(e, q)
    ensures At(e, q).tag == ([step] + rest)[|rest|].tag
    ensures ChildPath([step] + rest) ==> MatchesAt(e, [step] + rest, q)
    decreases e, 0, |e.children| - i, 1
  {
    var c := e.children[i];
    var here := if c.tag == step.tag then Prefixed(i, AllPos(c, rest)) else [];
    var below := if step.Desc? then Prefixed(i, AllFrom(c, 0, step, rest)) else [];
    var later := AllFrom(e, i + 1, step, rest);
    assert AllAt(e, i, step, rest) == here + below;
    if q in later {
      AllFromSoundAt(e, i + 1, step, rest, q);
    } else if q in here {
      AllFromSoundHere(e, i, step, rest, q);
    } else {
      AllFromSoundBelow(e, i, step, rest, q);
    }
  }

  /** A position where child `i` itself matches the first step. */
  lemma {:induction false} AllFromSoundHere(e: Element, i: nat, step: Step, rest: seq<Step>, q: seq<nat>)
    requires i < |e.children| && e.children[i].tag == step.tag
    requires q in Prefixed(i, AllPos(e.children[i], rest))
    ensures q != [] && i == q[0] && ValidPos(e, q)
    ensures At(e, q).tag == ([step] + rest)[|rest|].tag
    ensures ChildPath([step] + rest) ==> MatchesAt(e, [step] + rest, q)
    decreases e, 0, |e.children| - i, 0
  {
    var c := e.children[i];
    var path := [step] + rest;
    var k :| 0 <= k < |AllPos(c, rest)| && Prefixed(i, AllPos(c, rest))[k] == q;
    var p := AllPos(c, rest)[k];
    assert q == [i] + p && q[1..] == p;
    AllPosSoundAt(c, rest, p);
    assert At(e, q) == At(c, p);
    if rest == [] {
      assert p == [];
    }
    if ChildPath(path) {
      assert path[1..] == rest;
      assert ChildPath(rest) by {
        forall j | 0 <= j < |rest| ensures rest[j].Child? { assert rest[j] == path[j + 1]; }
      }
    }
  }

  /** A position below child `i`, for a `.//` step. */
  lemma {:induction false} AllFromSoundBelow(e: Element, i: nat, step: Step, rest: seq<Step>, q: seq<nat>)
    requires i < |e.children| && step.Desc?
    requires q in Prefixed(i, AllFrom(e.children[i], 0, step, rest))
    ensures q != [] && i == q[0] && ValidPos(e, q)
    ensures At(e, q).tag == ([step] + rest)[|rest|].tag
    ensures !ChildPath([step] + rest)
    decreases e, 0, |e.children| - i, 0
  {
    var c := e.children[i];
    var k :| 0 <= k < |AllFrom(c, 0, step, rest)| && Prefixed(i, AllFrom(c, 0, step, rest))[k] == q;
    var p := AllFrom(c, 0, step, rest)[k];
    assert q == [i] + p && q[1..] == p;
    AllFromSoundAt(c, 0, step, rest, p);
    assert At(e, q) == At(c, p);
    assert ([step] + rest)[0] == step;
  }

  /** `find(path)`: the first node `findall(path)` would return. */
  function Find(e: Element, path: seq<Step>): (r: Option<seq<nat>>)
    ensures r.Some? ==> ValidPos(e, r.value) && r.value in AllPos(e, path)
    ensures r.Some? ==> r.value == AllPos(e, path)[0]
    ensures r.None? <==> AllPos(e, path) == []
  {
    AllPosSound(e, path);
    var all := AllPos(e, path);
    if all == [] then None else Some(all[0])
  }

  /** The nodes at the given positions. */
  function Ats(e: Element, ps: seq<seq<nat>>): (r: seq<Element>)
    requires forall q :: q in ps ==> ValidPos(e, q)
    ensures |r| == |ps| && forall k :: 0 <= k < |ps| ==> r[k] == At(e, ps[k])
  {
    seq(|ps|, k requires 0 <= k < |ps| => At(e, ps[k]))
  }

  /** The nodes `findall(path)` returns. */
  function FindAll(e: Element, path: seq<Step>): (r: seq<Element>)
    ensures |r| == |AllPos(e, path)|
    ensures forall k :: 0 <= k < |r| ==> ValidPos(e, AllPos(e, path)[k]) && r[k] == At(e, AllPos(e, path)[k])
  {
    AllPosSound(e, path);
    Ats(e, AllPos(e, path))
  }

  /** The node `find(path)` returns, if any. */
  function FindElement(e: Element, path: seq<Step>): (r: Option<Element>)
    ensures r.None? <==> FindAll(e, path) == []
    ensures r.Some? ==> r.value == FindAll(e, path)[0]
  {
    var all := FindAll(e, path);
    if all == [] then None else Some(all[0])
  }

  function HasTag(t: string): Element -> bool {
    (c: Element) => c.tag == t
  }

  /** `findall(tag)` for a plain tag returns the children with that tag, in order. */
  lemma {:induction false} FindAllChild(e: Element, t: string)
    ensures FindAll(e, [Child(t)]) == Filter(e.children, HasTag(t))
  {
    AllFromChild(e, 0, t);
    assert e.children[0..] == e.children;
    assert [Child(t)][1..] == [];
  }

  lemma {:induction false} AllFromChild(e: Element, i: nat, t: string)
    requires i <= |e.children|
    ensures forall q :: q in AllFrom(e, i, Child(t), []) ==> ValidPos(e, q)
    ensures Ats(e, AllFrom(e, i, Child(t), [])) == Filter(e.children[i..], HasTag(t))
    decreases |e.children| - i
  {
    AllFromSound(e, i, Child(t), []);
    if i == |e.children| {
      assert e.children[i..] == [];
    } else {
      var c := e.children[i];
      AllFromChild(e, i + 1, t);
      AllFromChildCons(e, i, t);
    }
  }

  lemma {:induction false} AllFromChildCons(e: Element, i: nat, t: string)
    requires i < |e.children|
    requires forall q :: q in AllFrom(e, i + 1, Child(t), []) ==> ValidPos(e, q)
    requires Ats(e, AllFrom(e, i + 1, Child(t), [])) == Filter(e.children[i + 1..], HasTag(t))
    ensures forall q :: q in AllFrom(e, i, Child(t), []) ==> ValidPos(e, q)
    ensures Ats(e, AllFrom(e, i, Child(t), [])) == Filter(e.children[i..], HasTag(t))
  {
    var c := e.children[i];
    var later := AllFrom(e, i + 1, Child(t), []);
    var here: seq<seq<nat>> := if c.tag == t then [[i]] else [];
    var mine: seq<Element> := if c.tag == t then [c] else [];
    AllFromChildStep(e, i, t);
    assert ValidPos(e, [i]);
    assert Ats(e, here) == mine by {
      if c.tag == t {
        assert At(e, [i]) == c;
      }
    }
    AtsAppend(e, here, later);
    FilterCons(c, e.children[i + 1..], HasTag(t));
    assert e.children[i..] == [c] + e.children[i + 1..];
  }

  lemma {:induction false} AllFromChildStep(e: Element, i: nat, t: string)
    requires i < |e.children|
    ensures AllFrom(e, i, Child(t), [])
            == (if e.children[i].tag == t then [[i]] else []) + AllFrom(e, i + 1, Child(t), [])
  {
    assert AllPos(e.children[i], []) == [[]];
    assert Prefixed(i, [[]])[0] == [i] + [] == [i];
    assert AllAt(e, i, Child(t), []) == if e.children[i].tag == t then [[i]] else [];
  }

  lemma {:induction false} AtsAppend(e: Element, a: seq<seq<nat>>, b: seq<seq<nat>>)
    requires forall q :: q in a + b ==> ValidPos(e, q)
    ensures Ats(e, a + b) == Ats(e, a) + Ats(e, b)
  {
  }

  /** Completeness for child-only paths: every node reached by following the path tag
      by tag is found. */
  lemma {:induction false} AllPosComplete(e: Element, path: seq<Step>, q: seq<nat>)
    requires ChildPath(path) && MatchesAt(e, path, q)
    ensures q in AllPos(e, path)
    decreases |q|
  {
    if path != [] {
      var i := q[0];
      var c := e.children[i];
      var rest := path[1..];
      assert ChildPath(rest) by {
        forall j | 0 <= j < |rest| ensures rest[j].Child? { assert rest[j] == path[j + 1]; }
      }
      AllPosComplete(c, rest, q[1..]);
      var k :| 0 <= k < |AllPos(c, rest)| && AllPos(c, rest)[k] == q[1..];
      assert Prefixed(i, AllPos(c, rest))[k] == q;
      assert q in AllAt(e, i, path[0], rest);
      assert q in AllFrom(e, i, path[0], rest);
      AllFromIncludes(e, 0, i, path[0], rest, q);
    }
  }

  /** `findall` on a child-only path returns every node the path leads to. */
  lemma {:induction false} FindAllComplete(e: Element, path: seq<Step>, q: seq<nat>)
    requires ChildPath(path) && MatchesAt(e, path, q)
    ensures ValidPos(e, q) && At(e, q) in FindAll(e, path)
  {
    AllPosComplete(e, path, q);
    AllPosSound(e, path);
    var k :| 0 <= k < |AllPos(e, path)| && AllPos(e, path)[k] == q;
    assert FindAll(e, path)[k] == At(e, q);
  }

  lemma {:induction false} AllFromIncludes(e: Element, j: nat, i: nat, step: Step, rest: seq<Step>, q: seq<nat>)
    requires j <= i <= |e.children| && q in AllFrom(e, i, step, rest)
    ensures q in AllFrom(e, j, step, rest)
    decreases i - j
  {
    if j < i {
      AllFromIncludes(e, j + 1, i, step, rest, q);
      assert AllFrom(e, j, step, rest) == AllAt(e, j, step, rest) + AllFrom(e, j + 1, step, rest);
    }
  }

  // ---------------------------------------------------------------- shape

  /** Same tags and the same number of children, all the way down: the text and the
      attributes may differ. Searches by tag cannot tell such trees apart. */
  predicate SameShape(a: Element, b: Element)
    decreases a
  {
    a.tag == b.tag && |a.children| == |b.children|
    && forall k :: 0 <= k < |a.children| ==> SameShape(a.children[k], b.children[k])
  }

  lemma {:induction false} SameShapeRefl(a: Element)
    ensures SameShape(a, a)
    decreases a
  {
    forall k | 0 <= k < |a.children| ensures SameShape(a.children[k], a.children[k]) {
      SameShapeRefl(a.children[k]);
    }
  }

  /** Trees of the same shape have the same positions for every path. */
  lemma {:induction false} SameShapeAllPos(a: Element, b: Element, path: seq<Step>)
    requires SameShape(a, b)
    ensures AllPos(a, path) == AllPos(b, path)
    decreases a, 1, 0
  {
    if path != [] {
      SameShapeAllFrom(a, b, 0, path[0], path[1..]);
    }
  }

  lemma {:induction false} SameShapeAllFrom(a: Element, b: Element, i: nat, step: Step, rest: seq<Step>)
    requires SameShape(a, b) && i <= |a.children|
    ensures AllFrom(a, i, step, rest) == AllFrom(b, i, step, rest)
    decreases a, 0, |a.children| - i
  {
    if i < |a.children| {
      SameShapeAllAt(a, b, i, step, rest);
      SameShapeAllFrom(a, b, i + 1, step, rest);
    }
  }

  lemma {:induction false} SameShapeAllAt(a: Element, b: Element, i: nat, step: Step, rest: seq<Step>)
    requires SameShape(a, b) && i < |a.children|
    ensures AllAt(a, i, step, rest) == AllAt(b, i, step, rest)
    decreases a, 0, |a.children| - i, 0
  {
    var c, d := a.children[i], b.children[i];
    assert SameShape(c, d);
    SameShapeAllPos(c, d, rest);
    SameShapeAllFrom(c, d, 0, step, rest);
  }

  /** Positions valid in one tree are valid in a tree of the same shape. */
  lemma {:induction false} SameShapeAt(a: Element, b: Element, q: seq<nat>)
    requires SameShape(a, b) && ValidPos(a, q)
    ensures ValidPos(b, q) && SameShape(At(a, q), At(b, q))
    decreases |q|
  {
    if q != [] {
      assert SameShape(a.children[q[0]], b.children[q[0]]);
      SameShapeAt(a.children[q[0]], b.children[q[0]], q[1..]);
    }
  }

  /** Replacing a node by one of the same shape keeps the shape of the whole tree. */
  lemma {:induction false} ReplaceAtShape(e: Element, pos: seq<nat>, x: Element)
    requires ValidPos(e, pos) && SameShape(At(e, pos), x)
    ensures SameShape(e, ReplaceAt(e, pos, x))
    decreases |pos|
  {
    if pos != [] {
      var r := ReplaceAt(e, pos, x);
      ReplaceAtShape(e.children[pos[0]], pos[1..], x);
      forall k | 0 <= k < |e.children| ensures SameShape(e.children[k], r.children[k]) {
        if k != pos[0] {
          SameShapeRefl(e.children[k]);
        }
      }
    }
  }

  // ---------------------------------------------------------------- updates along a path

  /** `f` changes at most the text of an element. */
  ghost predicate TextOnly(f: Element -> Element) {
    forall x :: f(x) == x.(text := f(x).text)
  }

  /** `for node in e.findall(path): update node with f`, for a child-only path. */
  function MapPath(e: Element, path: seq<Step>, f: Element -> Element): Element
    requires ChildPath(path)
    decreases e
  {
    if path == [] then f(e)
    else
      assert ChildPath(path[1..]) by {
        forall j | 0 <= j < |path| - 1 ensures path[1..][j].Child? { assert path[1..][j] == path[j + 1]; }
      }
      e.(children := seq(|e.children|, k requires 0 <= k < |e.children| =>
        if e.children[k].tag == path[0].tag then MapPath(e.children[k], path[1..], f) else e.children[k]))
  }

  lemma {:induction false} ChildPathTail(path: seq<Step>)
    requires ChildPath(path) && path != []
    ensures ChildPath(path[1..])
  {
    forall j | 0 <= j < |path| - 1 ensures path[1..][j].Child? { assert path[1..][j] == path[j + 1]; }
  }

  /** A text-only update along a path keeps the shape of the tree. */
  lemma {:induction false} MapPathShape(e: Element, path: seq<Step>, f: Element -> Element)
    requires ChildPath(path) && TextOnly(f)
    ensures SameShape(e, MapPath(e, path, f))
    decreases e
  {
    if path == [] {
      SameShapeRefl(e);
      assert f(e) == e.(text := f(e).text);
    } else {
      ChildPathTail(path);
      var r := MapPath(e, path, f);
      forall k | 0 <= k < |e.children| ensures SameShape(e.children[k], r.children[k]) {
        if e.children[k].tag == path[0].tag {
          MapPathShape(e.children[k], path[1..], f);
        } else {
          SameShapeRefl(e.children[k]);
        }
      }
    }
  }

  /** What a text-only update along a path does at each node: the nodes the path
      selects get `f`'s text, every other node keeps its text, and no node changes
      its tag or attributes. */
  lemma {:induction false} MapPathAt(e: Element, path: seq<Step>, f: Element -> Element, q: seq<nat>)
    requires ChildPath(path) && TextOnly(f) && ValidPos(e, q)
    ensures ValidPos(MapPath(e, path, f), q)
    ensures At(MapPath(e, path, f), q).tag == At(e, q).tag
    ensures At(MapPath(e, path, f), q).attrs == At(e, q).attrs
    ensures At(MapPath(e, path, f), q).text
            == if MatchesAt(e, path, q) then f(At(e, q)).text else At(e, q).text
    decreases |q|
  {
    var r := MapPath(e, path, f);
    if path == [] {
      assert r == e.(text := f(e).text);
      if q != [] {
        assert At(r, q) == At(e, q);
      }
    } else if q != [] {
      ChildPathTail(path);
      var c := e.children[q[0]];
      if c.tag == path[0].tag {
        MapPathAt(c, path[1..], f, q[1..]);
      }
    }
  }

  /** Applying an idempotent text-only update twice along the same path is applying
      it once. */
  lemma {:induction false} MapPathIdempotent(e: Element, path: seq<Step>, f: Element -> Element)
    requires ChildPath(path) && TextOnly(f)
    requires forall x :: f(f(x)) == f(x)
    ensures MapPath(MapPath(e, path, f), path, f) == MapPath(e, path, f)
    decreases e
  {
    if path != [] {
      ChildPathTail(path);
      var r := MapPath(e, path, f);
      var rr := MapPath(r, path, f);
      forall k | 0 <= k < |e.children| ensures rr.children[k] == r.children[k] {
        var c := e.children[k];
        if c.tag == path[0].tag {
          MapPathShape(c, path[1..], f);
          MapPathIdempotent(c, path[1..], f);
        }
      }
    }
  }

  // ---------------------------------------------------------------- setting one node's text

  /** `node.text = t` for the node at `pos`. */
  function SetTextAt(e: Element, pos: seq<nat>, t: Option<string>): Element
    requires ValidPos(e, pos)
  {
    ReplaceAt(e, pos, At(e, pos).(text := t))
  }

  /** Setting one node's text changes no tag and no number of children. */
  lemma {:induction false} SetTextAtShape(e: Element, pos: seq<nat>, t: Option<string>)
    requires ValidPos(e, pos)
    ensures SameShape(e, SetTextAt(e, pos, t))
  {
    var n := At(e, pos);
    forall k | 0 <= k < |n.children| ensures SameShape(n.children[k], n.children[k]) {
      SameShapeRefl(n.children[k]);
    }
    assert SameShape(n, n.(text := t));
    ReplaceAtShape(e, pos, n.(text := t));
  }

  /** The node whose text is set keeps its position, tag, attributes and children. */
  lemma {:induction false} SetTextAtHere(e: Element, pos: seq<nat>, t: Option<string>)
    requires ValidPos(e, pos)
    ensures ValidPos(SetTextAt(e, pos, t), pos)
    ensures At(SetTextAt(e, pos, t), pos) == At(e, pos).(text := t)
    ensures SameShape(e, SetTextAt(e, pos, t))
  {
    ReplaceAtHere(e, pos, At(e, pos).(text := t));
    SameShapeRefl(At(e, pos));
    ReplaceAtShape(e, pos, At(e, pos).(text := t));
  }

  /** Every other node keeps its tag, text and attributes. */
  lemma {:induction false} SetTextAtOther(e: Element, pos: seq<nat>, t: Option<string>, q: seq<nat>)
    requires ValidPos(e, pos) && ValidPos(e, q) && q != pos
    ensures ValidPos(SetTextAt(e, pos, t), q)
    ensures At(SetTextAt(e, pos, t), q).tag == At(e, q).tag
    ensures At(SetTextAt(e, pos, t), q).text == At(e, q).text
    ensures At(SetTextAt(e, pos, t), q).attrs == At(e, q).attrs
    decreases |q|
  {
    var r := SetTextAt(e, pos, t);
    if pos == [] {
      assert r.children == e.children;
      assert At(r, q) == At(r.children[q[0]], q[1..]);
    } else if q != [] {
      var c := e.children[pos[0]];
      assert At(e, pos) == At(c, pos[1..]);
      assert r.children[pos[0]] == SetTextAt(c, pos[1..], t);
      if q[0] == pos[0] {
        SetTextAtOther(c, pos[1..], t, q[1..]);
      }
    }
  }

  /** Replacing the same node twice keeps only the second replacement. */
  lemma {:induction false} ReplaceAtTwice(e: Element, pos: seq<nat>, x: Element, y: Element)
    requires ValidPos(e, pos)
    ensures ValidPos(ReplaceAt(e, pos, x), pos)
    ensures ReplaceAt(ReplaceAt(e, pos, x), pos, y) == ReplaceAt(e, pos, y)
    decreases |pos|
  {
    ReplaceAtHere(e, pos, x);
    if pos != [] {
      ReplaceAtTwice(e.children[pos[0]], pos[1..], x, y);
    }
  }

  /** Two trees of the same shape as `c` that agree, node by node, on text and
      attributes are the same tree. */
  lemma {:induction false} NodewiseEqual(c: Element, a: Element, b: Element)
    requires SameShape(c, a) && SameShape(c, b)
    requires forall q :: ValidPos(c, q) ==>
               ValidPos(a, q) && ValidPos(b, q) && At(a, q).text == At(b, q).text && At(a, q).attrs == At(b, q).attrs
    ensures a == b
    decreases c
  {
    assert ValidPos(c, []);
    forall k | 0 <= k < |c.children| ensures a.children[k] == b.children[k] {
      forall q | ValidPos(c.children[k], q)
        ensures ValidPos(a.children[k], q) && ValidPos(b.children[k], q)
        ensures At(a.children[k], q).text == At(b.children[k], q).text
        ensures At(a.children[k], q).attrs == At(b.children[k], q).attrs
      {
        var kq := [k] + q;
        assert kq[0] == k && kq[1..] == q;
        assert ValidPos(c, kq);
      }
      NodewiseEqual(c.children[k], a.children[k], b.children[k]);
    }
  }

  /** A path through a tree of child steps ends at a node with the last step's tag. */
  lemma {:induction false} MatchesAtTag(e: Element, path: seq<Step>, q: seq<nat>)
    requires ChildPath(path) && path != []
    ensures MatchesAt(e, path, q) ==> ValidPos(e, q) && At(e, q).tag == path[|path| - 1].tag
  {
    if MatchesAt(e, path, q) {
      AllPosComplete(e, path, q);
      AllPosSound(e, path);
    }
  }

  /** `find(path)` gives nodes with the same text in two trees of the same shape that
      agree on the text of every node `path` selects. */
  lemma {:induction false} FindTextSame(a: Element, b: Element, path: seq<Step>)
    requires SameShape(a, b)
    requires forall q :: q in AllPos(a, path) ==> ValidPos(a, q) && ValidPos(b, q) && At(a, q).text == At(b, q).text
    ensures FindElement(a, path).Some? <==> FindElement(b, path).Some?
    ensures FindElement(a, path).Some? ==> FindElement(a, path).value.text == FindElement(b, path).value.text
  {
    SameShapeAllPos(a, b, path);
    if AllPos(a, path) != [] {
      assert AllPos(a, path)[0] in AllPos(a, path);
    }
  }

  /** A text-only update along one child path leaves the text that `find` sees along
      any path ending in another tag as it was. */
  lemma {:induction false} MapPathElsewhere(e: Element, path: seq<Step>, f: Element -> Element, other: seq<Step>)
    requires ChildPath(path) && TextOnly(f) && path != [] && other != []
    requires path[|path| - 1].tag != other[|other| - 1].tag
    ensures FindElement(MapPath(e, path, f), other).Some? <==> FindElement(e, other).Some?
    ensures FindElement(e, other).Some? ==> FindElement(MapPath(e, path, f), other).value.text == FindElement(e, other).value.text
  {
    var r := MapPath(e, path, f);
    MapPathShape(e, path, f);
    AllPosSound(e, other);
    forall q | q in AllPos(e, other) ensures ValidPos(e, q) && ValidPos(r, q) && At(e, q).text == At(r, q).text {
      MapPathAt(e, path, f, q);
      MatchesAtTag(e, path, q);
    }
    FindTextSame(e, r, other);
  }

  /** Setting the text of a node whose tag differs from the last step of `other` leaves
      the text that `find(other)` sees as it was. */
  lemma {:induction false} SetTextElsewhere(e: Element, pos: seq<nat>, t: Option<string>, other: seq<Step>)
    requires ValidPos(e, pos) && other != [] && At(e, pos).tag != other[|other| - 1].tag
    ensures FindElement(SetTextAt(e, pos, t), other).Some? <==> FindElement(e, other).Some?
    ensures FindElement(e, other).Some? ==> FindElement(SetTextAt(e, pos, t), other).value.text == FindElement(e, other).value.text
  {
    var r := SetTextAt(e, pos, t);
    SetTextAtHere(e, pos, t);
    AllPosSound(e, other);
    forall q | q in AllPos(e, other) ensures ValidPos(e, q) && ValidPos(r, q) && At(e, q).text == At(r, q).text {
      SetTextAtOther(e, pos, t, q);
    }
    FindTextSame(e, r, other);
  }

  lemma {:induction false} SameShapeTrans(a: Element, b: Element, c: Element)
    requires SameShape(a, b) && SameShape(b, c)
    ensures SameShape(a, c)
    decreases a
  {
    forall k | 0 <= k < |a.children| ensures SameShape(a.children[k], c.children[k]) {
      SameShapeTrans(a.children[k], b.children[k], c.children[k]);
    }
  }
}
