/** The part of an lxml element tree that the helpers use: elements with a tag, an optional
    text and an ordered list of children, the in-document element objects whose tag can be
    reassigned, the pre-order walk of `getiterator()` and the relative-path lookup of `find`. */
module ETree {
  import opened Wrappers

  /** The value of an element and its subtree. */
  datatype Element = Element(tag: string, text: Option<string>, children: seq<Element>)

  /** The concatenation of a sequence of sequences. */
  function Concat<T>(ss: seq<seq<T>>): seq<T> {
    if ss == [] then [] else ss[0] + Concat(ss[1..])
  }

  /** An element is in a concatenation exactly when it is in one of the parts. */
  lemma {:induction false} ConcatMember<T>(ss: seq<seq<T>>, x: T)
    ensures x in Concat(ss) <==> exists i :: 0 <= i < |ss| && x in ss[i]
  {
    if ss != [] {
      ConcatMember(ss[1..], x);
      if x in Concat(ss[1..]) {
        var i :| 0 <= i < |ss[1..]| && x in ss[1..][i];
        assert x in ss[i + 1];
      }
      if exists i :: 0 <= i < |ss| && x in ss[i] {
        var i :| 0 <= i < |ss| && x in ss[i];
        if i > 0 { assert x in ss[1..][i - 1]; }
      }
    }
  }

  /** No element occurs twice in `s`. */
  ghost predicate Distinct<T>(s: seq<T>) {
    forall i, j :: 0 <= i < j < |s| ==> s[i] != s[j]
  }

  /** Parts without repeats that share no element concatenate without repeats. */
  lemma {:induction false} ConcatDistinct<T>(ss: seq<seq<T>>)
    requires forall i :: 0 <= i < |ss| ==> Distinct(ss[i])
    requires forall i, j, x :: 0 <= i < j < |ss| && x in ss[i] ==> x !in ss[j]
    ensures Distinct(Concat(ss))
  {
    if ss != [] {
      ConcatDistinct(ss[1..]);
      var c := Concat(ss);
      assert c == ss[0] + Concat(ss[1..]);
      forall i, j | 0 <= i < j < |c| ensures c[i] != c[j] {
        if i < |ss[0]| <= j {
          ConcatMember(ss[1..], c[j]);
          assert c[j] in Concat(ss[1..]);
        }
      }
    }
  }

  /** The sequence `s` with `f` applied to each element. */
  function MapSeq<T, U>(f: T -> U, s: seq<T>): (r: seq<U>)
    ensures |r| == |s| && forall k :: 0 <= k < |s| ==> r[k] == f(s[k])
  {
    seq(|s|, k requires 0 <= k < |s| => f(s[k]))
  }

  /** Mapping over a sequence with one element in front maps that element first. */
  lemma MapSeqCons<T, U>(f: T -> U, x: T, s: seq<T>)
    ensures MapSeq(f, [x] + s) == [f(x)] + MapSeq(f, s)
  {
    assert MapSeq(f, [x] + s)[1..] == MapSeq(f, s);
  }

  /** Mapping each part and concatenating is concatenating and mapping. */
  lemma {:induction false} ConcatMapSeq<T, U>(f: T -> U, ss: seq<seq<T>>, tt: seq<seq<U>>)
    requires |ss| == |tt| && forall i :: 0 <= i < |ss| ==> tt[i] == MapSeq(f, ss[i])
    ensures Concat(tt) == MapSeq(f, Concat(ss))
  {
    if ss != [] {
      ConcatMapSeq(f, ss[1..], tt[1..]);
    }
  }

  /** The tags of `e` and its descendants in document (pre-)order, the order in which
      `getiterator()` visits the elements. */
  function Tags(e: Element): (ts: seq<string>)
    ensures |ts| >= 1 && ts[0] == e.tag
  {
    [e.tag] + Concat(seq(|e.children|, i requires 0 <= i < |e.children| => Tags(e.children[i])))
  }

  /** The tag lists of the children of `e`, one per child. */
  function ChildTags(e: Element): (ts: seq<seq<string>>)
    ensures |ts| == |e.children| && forall i :: 0 <= i < |e.children| ==> ts[i] == Tags(e.children[i])
  {
    seq(|e.children|, i requires 0 <= i < |e.children| => Tags(e.children[i]))
  }

  /** The tags of `e` are its own tag followed by those of its children in turn. */
  lemma TagsUnfold(e: Element)
    ensures Tags(e) == [e.tag] + Concat(ChildTags(e))
  {
  }

  /** Two trees of the same shape: the same text at every element and the same number of
      children, in the same order; only the tags may differ. */
  predicate SameShape(a: Element, b: Element) {
    a.text == b.text && |a.children| == |b.children|
    && forall i :: 0 <= i < |a.children| ==> SameShape(a.children[i], b.children[i])
  }

  /** Two trees of the shape of a third have the same shape as each other. */
  lemma {:induction false} SameShapeEuclidean(a: Element, b: Element, c: Element)
    requires SameShape(a, b) && SameShape(a, c)
    ensures SameShape(b, c)
  {
    forall i | 0 <= i < |b.children| ensures SameShape(b.children[i], c.children[i]) {
      SameShapeEuclidean(a.children[i], b.children[i], c.children[i]);
    }
  }

  /** Parts of the same lengths concatenate to sequences of the same length. */
  lemma {:induction false} ConcatSameLengths<T, U>(ss: seq<seq<T>>, tt: seq<seq<U>>)
    requires |ss| == |tt| && forall i :: 0 <= i < |ss| ==> |ss[i]| == |tt[i]|
    ensures |Concat(ss)| == |Concat(tt)|
  {
    if ss != [] {
      ConcatSameLengths(ss[1..], tt[1..]);
    }
  }

  /** Parts of the same lengths with equal concatenations are the same parts. */
  lemma {:induction false} ConcatSplits<T>(ss: seq<seq<T>>, tt: seq<seq<T>>)
    requires |ss| == |tt| && forall i :: 0 <= i < |ss| ==> |ss[i]| == |tt[i]|
    requires Concat(ss) == Concat(tt)
    ensures ss == tt
  {
    if ss != [] {
      var n := |ss[0]|;
      assert ss[0] == Concat(ss)[..n] && tt[0] == Concat(tt)[..n];
      assert Concat(ss[1..]) == Concat(ss)[n..] && Concat(tt[1..]) == Concat(tt)[n..];
      ConcatSplits(ss[1..], tt[1..]);
      assert ss == [ss[0]] + ss[1..] && tt == [tt[0]] + tt[1..];
    }
  }

  /** Trees of the same shape list the same number of tags. */
  lemma {:induction false} SameShapeTagCount(a: Element, b: Element)
    requires SameShape(a, b)
    ensures |Tags(a)| == |Tags(b)|
  {
    forall i | 0 <= i < |a.children| ensures |Tags(a.children[i])| == |Tags(b.children[i])| {
      SameShapeTagCount(a.children[i], b.children[i]);
    }
    ConcatSameLengths(seq(|a.children|, i requires 0 <= i < |a.children| => Tags(a.children[i])),
                      seq(|b.children|, i requires 0 <= i < |b.children| => Tags(b.children[i])));
  }

  /** A tree is determined by its shape and its tags in document order. */
  lemma {:induction false} ShapeAndTagsDetermine(a: Element, b: Element)
    requires SameShape(a, b) && Tags(a) == Tags(b)
    ensures a == b
  {
    var ss := seq(|a.children|, i requires 0 <= i < |a.children| => Tags(a.children[i]));
    var tt := seq(|b.children|, i requires 0 <= i < |b.children| => Tags(b.children[i]));
    forall i | 0 <= i < |a.children| ensures |ss[i]| == |tt[i]| {
      SameShapeTagCount(a.children[i], b.children[i]);
    }
    assert Concat(ss) == Tags(a)[1..] == Tags(b)[1..] == Concat(tt);
    ConcatSplits(ss, tt);
    forall i | 0 <= i < |a.children| ensures a.children[i] == b.children[i] {
      assert ss[i] == tt[i];
      ShapeAndTagsDetermine(a.children[i], b.children[i]);
    }
    assert a.children == b.children;
  }

  /** One path step of `find` succeeds at child `c`: its tag is the step and the rest of the
      path finds something below it. */
  predicate StepMatches(c: Element, path: seq<string>)
    requires path != []
    decreases |path|, 0, 0
  {
    c.tag == path[0] && Find(c, path[1..]).Some?
  }

  /** `e.find(path)` for a relative path of tag steps (`"a"`, `"a/b"`): the first element, in
      document order, reached by stepping from `e` to a child tagged with each step in turn;
      `None` when the path reaches nothing. The empty path is `e` itself. */
  function Find(e: Element, path: seq<string>): (r: Option<Element>)
    ensures path == [] ==> r == Some(e)
    ensures path != [] && r.Some? ==> r.value.tag == path[|path| - 1]
    decreases |path|, 1
  {
    if path == [] then Some(e) else FindIn(e.children, path)
  }

  /** The first match of `path` starting at one of the siblings `cs`. */
  function FindIn(cs: seq<Element>, path: seq<string>): (r: Option<Element>)
    requires path != []
    ensures r.Some? ==> r.value.tag == path[|path| - 1]
    ensures cs == [] ==> r.None?
    decreases |path|, 0, |cs|
  {
    if cs == [] then None
    else if StepMatches(cs[0], path) then Find(cs[0], path[1..])
    else FindIn(cs[1..], path)
  }

  /** `FindIn` answers from the first sibling the step matches, and `None` exactly when it
      matches none of them. */
  lemma {:induction false} FindInFirst(cs: seq<Element>, path: seq<string>)
    requires path != []
    ensures FindIn(cs, path).None? <==> forall i :: 0 <= i < |cs| ==> !StepMatches(cs[i], path)
    ensures FindIn(cs, path).Some? ==>
              exists i :: 0 <= i < |cs| && StepMatches(cs[i], path)
                          && FindIn(cs, path) == Find(cs[i], path[1..])
                          && forall j :: 0 <= j < i ==> !StepMatches(cs[j], path)
  {
    if cs != [] && !StepMatches(cs[0], path) {
      FindInFirst(cs[1..], path);
      if FindIn(cs, path).Some? {
        var i :| 0 <= i < |cs[1..]| && StepMatches(cs[1..][i], path)
                 && FindIn(cs[1..], path) == Find(cs[1..][i], path[1..])
                 && forall j :: 0 <= j < i ==> !StepMatches(cs[1..][j], path);
        assert StepMatches(cs[i + 1], path);
        forall j | 0 <= j < i + 1 ensures !StepMatches(cs[j], path) {
          if j > 0 { assert cs[j] == cs[1..][j - 1]; }
        }
      }
      forall i | 0 <= i < |cs| && i > 0 ensures StepMatches(cs[i], path) == StepMatches(cs[1..][i - 1], path) {
      }
    }
  }

  /** `e.find("t")`: the first child of `e` whose tag is `t`, and `None` exactly when no child
      has that tag. */
  lemma FindChild(e: Element, t: string)
    ensures Find(e, [t]).None? <==> forall i :: 0 <= i < |e.children| ==> e.children[i].tag != t
    ensures Find(e, [t]).Some? ==>
              exists i :: 0 <= i < |e.children| && e.children[i].tag == t
                          && Find(e, [t]) == Some(e.children[i])
                          && forall j :: 0 <= j < i ==> e.children[j].tag != t
  {
    FindInFirst(e.children, [t]);
    assert [t][1..] == [];
  }

  /** `e.find("a/b")`: the first `b` child of the first `a` child of `e` that has one, which is
      the first such grandchild in document order; `None` exactly when no `a` child of `e` has
      a `b` child. */
  lemma FindGrandchild(e: Element, a: string, b: string)
    ensures Find(e, [a, b]).None? <==>
              forall i, j :: (0 <= i < |e.children| && 0 <= j < |e.children[i].children|
                              && e.children[i].tag == a) ==> e.children[i].children[j].tag != b
    ensures Find(e, [a, b]).Some? ==>
              exists i, j :: 0 <= i < |e.children| && 0 <= j < |e.children[i].children|
                             && e.children[i].tag == a && e.children[i].children[j].tag == b
                             && Find(e, [a, b]) == Some(e.children[i].children[j])
                             && (forall i', j' :: (0 <= i' < i && 0 <= j' < |e.children[i'].children|
                                                   && e.children[i'].tag == a) ==> e.children[i'].children[j'].tag != b)
                             && (forall j' :: 0 <= j' < j ==> e.children[i].children[j'].tag != b)
  {
    assert [a, b][1..] == [b];
    FindInFirst(e.children, [a, b]);
    forall i | 0 <= i < |e.children| { FindChild(e.children[i], b); }
  }

  /** The union of the footprints of the nodes `cs`. */
  ghost function ReprOf(cs: seq<Node>): set<Node> {
    if cs == [] then {} else cs[0].repr + ReprOf(cs[1..])
  }

  /** A node is in the union of footprints exactly when it is in one of them. */
  lemma {:induction false} ReprOfMember(cs: seq<Node>, m: Node)
    ensures m in ReprOf(cs) <==> exists i :: 0 <= i < |cs| && m in cs[i].repr
  {
    if cs != [] {
      ReprOfMember(cs[1..], m);
      if exists i :: 0 <= i < |cs| && m in cs[i].repr {
        var i :| 0 <= i < |cs| && m in cs[i].repr;
        if i > 0 { assert cs[1..][i - 1] == cs[i]; }
      }
    }
  }

  /** The current tags of the nodes `po`, in order. */
  function TagsOf(po: seq<Node>): (ts: seq<string>)
    reads po
    ensures |ts| == |po| && forall k :: 0 <= k < |po| ==> ts[k] == po[k].tag
  {
    seq(|po|, k requires 0 <= k < |po| reads po => po[k].tag)
  }

  /** The tags of a node followed by others: its tag, then theirs. */
  lemma TagsOfCons(n: Node, po: seq<Node>)
    ensures TagsOf([n] + po) == [n.tag] + TagsOf(po)
  {
  }

  /** The tags of concatenated walks are the concatenation of their tags. */
  lemma {:induction false} ConcatTagsOf(ss: seq<seq<Node>>, tt: seq<seq<string>>)
    requires |ss| == |tt| && forall i :: 0 <= i < |ss| ==> tt[i] == TagsOf(ss[i])
    ensures Concat(tt) == TagsOf(Concat(ss))
  {
    if ss != [] {
      ConcatTagsOf(ss[1..], tt[1..]);
      assert Concat(ss) == ss[0] + Concat(ss[1..]);
    }
  }

  /** An element object of a parsed document. Only its tag can be reassigned; its text and its
      list of children are fixed. `repr` is the set of element objects of its subtree. */
  class Node {
    var tag: string
    const text: Option<string>
    const children: seq<Node>
    ghost const repr: set<Node>

    /** The subtree is a tree: every child heads a subtree of its own, the subtrees of
        different children share no element, and `repr` is exactly this node and theirs. */
    ghost predicate Valid()
      decreases repr
    {
      this in repr
      && (forall i :: 0 <= i < |children| ==>
            children[i] in repr && children[i].repr <= repr && this !in children[i].repr
            && children[i].Valid())
      && (forall i, j :: 0 <= i < j < |children| ==> children[i].repr !! children[j].repr)
      && repr == {this} + ReprOf(children)
    }

    constructor (tag: string, text: Option<string>, children: seq<Node>)
      requires forall i :: 0 <= i < |children| ==> children[i].Valid()
      requires forall i, j :: 0 <= i < j < |children| ==> children[i].repr !! children[j].repr
      ensures Valid() && this.tag == tag && this.text == text && this.children == children
      ensures repr == {this} + ReprOf(children)
    {
      this.tag := tag;
      this.text := text;
      this.children := children;
      this.repr := {this} + ReprOf(children);
      new;
      forall i | 0 <= i < |children| ensures children[i].repr <= ReprOf(children) {
        forall m | m in children[i].repr ensures m in ReprOf(children) {
          ReprOfMember(children, m);
        }
      }
    }

    /** The value of the subtree headed by this node in the current heap. */
    function Value(): (e: Element)
      reads repr
      requires Valid()
      ensures e.tag == tag && e.text == text && |e.children| == |children|
      ensures forall i :: 0 <= i < |children| ==> e.children[i] == children[i].Value()
      decreases repr
    {
      Element(tag, text, seq(|children|, i requires 0 <= i < |children| reads repr => children[i].Value()))
    }

    /** The element objects of the subtree in the order `getiterator()` yields them: this node,
        then the subtree of each child in turn. Every node of the subtree occurs, and only once. */
    function PreOrder(): (po: seq<Node>)
      requires Valid()
      ensures |po| >= 1 && po[0] == this
      ensures Distinct(po)
      ensures forall k :: 0 <= k < |po| ==> po[k] in repr
      ensures forall m | m in repr :: m in po
      decreases repr, 1
    {
      var ss := ChildWalks();
      ConcatDistinct(ss);
      CoverChildren(ss);
      [this] + Concat(ss)
    }

    /** The tags `getiterator()` meets, in the order it meets them, are the tags of the
        subtree's value in document order. */
    lemma {:induction false} PreOrderTags()
      requires Valid()
      ensures TagsOf(PreOrder()) == Tags(Value())
      decreases repr
    {
      var ss := ChildWalks();
      var tt := ChildTags(Value());
      forall i | 0 <= i < |children| ensures tt[i] == TagsOf(ss[i]) {
        children[i].PreOrderTags();
      }
      ConcatTagsOf(ss, tt);
      TagsUnfold(Value());
      TagsOfCons(this, Concat(ss));
    }

    /** The walks of the children, one per child. */
    function ChildWalks(): (ss: seq<seq<Node>>)
      requires Valid()
      ensures |ss| == |children| && forall i :: 0 <= i < |children| ==> ss[i] == children[i].PreOrder()
      decreases repr, 0
    {
      seq(|children|, i requires 0 <= i < |children| => children[i].PreOrder())
    }

    /** The walks of the children together hold exactly the nodes of their subtrees. */
    lemma CoverChildren(ss: seq<seq<Node>>)
      requires Valid() && |ss| == |children|
      requires forall i :: 0 <= i < |ss| ==> (forall k :: 0 <= k < |ss[i]| ==> ss[i][k] in children[i].repr)
      requires forall i :: 0 <= i < |ss| ==> (forall m | m in children[i].repr :: m in ss[i])
      ensures forall k :: 0 <= k < |Concat(ss)| ==> Concat(ss)[k] in ReprOf(children)
      ensures forall m | m in ReprOf(children) :: m in Concat(ss)
      ensures this !in ReprOf(children)
    {
      ReprOfMember(children, this);
      forall k | 0 <= k < |Concat(ss)| ensures Concat(ss)[k] in ReprOf(children) {
        var m := Concat(ss)[k];
        ConcatMember(ss, m);
        ReprOfMember(children, m);
      }
      forall m | m in ReprOf(children) ensures m in Concat(ss) {
        ConcatMember(ss, m);
        ReprOfMember(children, m);
      }
    }
  }
}
