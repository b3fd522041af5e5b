/** The Junos XML helpers: the attribute maps that tag edit operations, the removal of
    namespace prefixes from element tags, and the extraction of an `<rpc-error>` into a
    five-field record. */
module Jxml {
  import opened Wrappers
  import opened Text
  import opened ETree

  /* ---------- Attribute maps ---------- */

  /** The XML attributes put on an element of an edit or get request. */
  type Attributes = map<string, string>

  /** Delete the resource. */
  const Del: Attributes := map["delete" := "delete"]
  /** Rename the resource; used together with `Name`. */
  const Ren: Attributes := map["rename" := "rename"]
  /** Activate the resource. */
  const Activate: Attributes := map["active" := "active"]
  /** Deactivate the resource. */
  const Deactivate: Attributes := map["inactive" := "inactive"]
  /** Replace the elements. */
  const Replace: Attributes := map["replace" := "replace"]
  /** Move the resource before the one named with `Name`. */
  const Before: Attributes := map["insert" := "before"]
  /** Move the resource after the one named with `Name`. */
  const After: Attributes := map["insert" := "after"]
  /** Ask `<get-configuration>` for object identifiers only. */
  const NamesOnly: Attributes := map["recurse" := "false"]
  /** Ask `<get-configuration>` for inherited configuration. */
  const Inherit: Attributes := map["inherit" := "inherit"]
  /** Inherited configuration, annotated with the groups it comes from. */
  const InheritGroups: Attributes := map["inherit" := "inherit", "groups" := "groups"]
  /** Inherited configuration including defaults, annotated with groups. */
  const InheritDefaults: Attributes := map["inherit" := "defaults", "groups" := "groups"]

  /** The attribute naming the target of a rename or reorder: the one key `name`. */
  function Name(name: string): (r: Attributes)
    ensures r.Keys == {"name"} && r["name"] == name
  {
    map["name" := name]
  }

  /** A reorder directive: the one key `insert`, bound to the command as given. */
  function Insert(cmd: string): (r: Attributes)
    ensures r.Keys == {"insert"} && r["insert"] == cmd
  {
    map["insert" := cmd]
  }

  /** The reorder constants are the directives `Insert` builds for "before" and "after", and
      no two of the constant maps are the same. */
  lemma ReorderConstants()
    ensures Insert("before") == Before && Insert("after") == After
    ensures Before != After && Inherit != InheritGroups && InheritGroups != InheritDefaults
    ensures Del == map["delete" := "delete"] && Ren == map["rename" := "rename"]
    ensures NamesOnly == map["recurse" := "false"]
  {
    assert Before["insert"] != After["insert"];
    assert "groups" !in Inherit;
    assert InheritGroups["inherit"] != InheritDefaults["inherit"];
  }

  /* ---------- Namespace removal ---------- */

  /** The tag with its namespace removed: when the first `}` of the tag is at an index `i`
      above 0 (Clark notation `{uri}local`), the text after it; otherwise the tag unchanged. */
  function StripTag(tag: string): (r: string)
    ensures '}' !in tag || tag[0] == '}' ==> r == tag
    ensures '}' in tag && tag[0] != '}' ==>
              |r| < |tag| - 1 && r == tag[|tag| - |r|..]
              && tag[|tag| - |r| - 1] == '}' && '}' !in tag[..|tag| - |r| - 1]
  {
    var i := IndexOf(tag, '}');
    if i > 0 then tag[i + 1..] else tag
  }

  /** The tree with `StripTag` applied to the tag of every element: the root's tag is
      stripped, and the shape, child order and texts are those of the input. */
  function StripTree(e: Element): (r: Element)
    ensures r.tag == StripTag(e.tag) && SameShape(e, r)
  {
    Element(StripTag(e.tag), e.text,
            seq(|e.children|, i requires 0 <= i < |e.children| => StripTree(e.children[i])))
  }

  /** Stripping changes tags only: the shape and texts are those of the input, and the tags
      in document order are the input's tags, each stripped. */
  lemma StripTreeChangesOnlyTags(e: Element)
    ensures SameShape(e, StripTree(e))
    ensures Tags(StripTree(e)) == MapSeq(StripTag, Tags(e))
  {
    StripTreeStripsTags(e);
  }

  /** The document-order tags of the stripped tree are the input's tags, each stripped. */
  lemma {:induction false} StripTreeStripsTags(e: Element)
    ensures Tags(StripTree(e)) == MapSeq(StripTag, Tags(e))
  {
    var s := StripTree(e);
    var ss := ChildTags(e);
    var tt := ChildTags(s);
    forall i | 0 <= i < |e.children| ensures tt[i] == MapSeq(StripTag, ss[i]) {
      StripTreeStripsTags(e.children[i]);
    }
    ConcatMapSeq(StripTag, ss, tt);
    TagsUnfold(e);
    TagsUnfold(s);
    MapSeqCons(StripTag, e.tag, Concat(ss));
  }

  /** The two facts above pin the stripped tree down: any tree of the input's shape whose tags
      in document order are the input's tags, each stripped, is the stripped tree. */
  lemma StripTreeUnique(e: Element, t: Element)
    requires SameShape(e, t) && Tags(t) == MapSeq(StripTag, Tags(e))
    ensures t == StripTree(e)
  {
    StripTreeChangesOnlyTags(e);
    SameShapeEuclidean(e, StripTree(e), t);
    ShapeAndTagsDetermine(StripTree(e), t);
  }

  /** A tag with at most one `}` is stripped once and for all. */
  lemma StripTagIdempotent(tag: string)
    requires multiset(tag)['}'] <= 1
    ensures StripTag(StripTag(tag)) == StripTag(tag)
  {
    var r := StripTag(tag);
    if '}' in tag && tag[0] != '}' {
      var k := |tag| - |r| - 1;
      assert tag == tag[..k + 1] + r;
      assert multiset(tag) == multiset(tag[..k + 1]) + multiset(r);
      assert tag[..k + 1] == tag[..k] + ['}'];
      assert '}' !in r;
    }
  }

  /** Removing namespaces a second time changes nothing when no tag has more than one `}`. */
  lemma {:induction false} StripTreeIdempotent(e: Element)
    requires forall t :: t in Tags(e) ==> multiset(t)['}'] <= 1
    ensures StripTree(StripTree(e)) == StripTree(e)
  {
    StripTagIdempotent(e.tag);
    var ss := seq(|e.children|, i requires 0 <= i < |e.children| => Tags(e.children[i]));
    forall i | 0 <= i < |e.children| ensures StripTree(StripTree(e.children[i])) == StripTree(e.children[i]) {
      forall t | t in Tags(e.children[i]) ensures t in Tags(e) {
        assert t in ss[i];
        ConcatMember(ss, t);
      }
      StripTreeIdempotent(e.children[i]);
    }
    assert StripTree(StripTree(e)).children == StripTree(e).children;
  }

  /** In general namespace removal is not idempotent: a tag with two `}` loses one prefix per
      pass. */
  lemma StripTreeNotIdempotent()
    ensures var e := Element("{a}{b}x", None, []);
            StripTree(e) == Element("{b}x", None, [])
            && StripTree(StripTree(e)) == Element("x", None, [])
  {
    StripTagTwoPrefixes();
    StripLeafWithText("{a}{b}x", None);
    StripLeafWithText("{b}x", None);
  }

  /** A tag with two namespace prefixes loses only the first one. */
  lemma StripTagTwoPrefixes()
    ensures StripTag("{a}{b}x") == "{b}x" && StripTag("{b}x") == "x"
  {
    var t := "{a}{b}x";
    assert t[2] == '}' && '}' !in t[..2];
    assert IndexOf(t, '}') == 2;
    assert t[3..] == "{b}x";
    var u := "{b}x";
    assert u[2] == '}' && '}' !in u[..2];
    assert IndexOf(u, '}') == 2;
    assert u[3..] == "x";
  }

  /** The tags of every node of a subtree have been stripped in place, and nothing else has
      changed: the subtree now holds the stripped tree. */
  twostate lemma {:induction false} StrippedInPlace(n: Node)
    requires n.Valid()
    requires forall m | m in n.repr :: m.tag == StripTag(old(m.tag))
    ensures n.Value() == StripTree(old(n.Value()))
    decreases n.repr
  {
    forall i | 0 <= i < |n.children| ensures n.children[i].Value() == StripTree(old(n.children[i].Value())) {
      StrippedInPlace(n.children[i]);
    }
    assert n.Value().children == StripTree(old(n.Value())).children;
  }

  /** `remove_namespaces(xml)`: walks the elements of `xml` in document order and strips the
      tag of each in place; returns `xml` itself. */
  method RemoveNamespaces(xml: Node) returns (r: Node)
    requires xml.Valid()
    modifies xml.repr
    ensures r == xml
    ensures forall m | m in xml.repr :: m.tag == StripTag(old(m.tag))
    ensures xml.Value() == StripTree(old(xml.Value()))
  {
    var elems := xml.PreOrder();
    for k := 0 to |elems|
      invariant forall j :: 0 <= j < k ==> elems[j].tag == StripTag(old(elems[j].tag))
      invariant forall j :: k <= j < |elems| ==> elems[j].tag == old(elems[j].tag)
    {
      var elem := elems[k];
      var i := IndexOf(elem.tag, '}');
      if i > 0 {
        elem.tag := elem.tag[i + 1..];
      }
    }
    forall m | m in xml.repr ensures m.tag == StripTag(old(m.tag)) {
      var j :| 0 <= j < |elems| && elems[j] == m;
    }
    StrippedInPlace(xml);
    r := xml;
  }

  /* ---------- rpc-error extraction ---------- */

  /** What `rpc_error` raises. */
  datatype Fault =
    | MissingFirstChild              // IndexError: an `rpc-reply` without children
    | TextlessMatch(path: seq<string>)  // AttributeError: `path` found an element without text

  /** The record fields in the order they are filled, each with the path it is read from. */
  const Fields: seq<(string, seq<string>)> := [
    ("severity", ["error-severity"]),
    ("source", ["source-daemon"]),
    ("edit_path", ["error-path"]),
    ("bad_element", ["error-info", "bad-element"]),
    ("message", ["error-message"])
  ]

  /** The keys of the record. */
  const FieldKeys: set<string> := {"severity", "source", "edit_path", "bad_element", "message"}

  /** `find_strip(path)`: the text, trimmed, of the element `path` finds below `e`; `None` when
      it finds nothing; raises when the element found has no text. */
  function FindStrip(e: Element, path: seq<string>): (r: Result<Option<string>, Fault>)
    ensures r == Success(None) <==> Find(e, path).None?
    ensures r.Failure? <==> Find(e, path).Some? && Find(e, path).value.text.None?
    ensures r.Failure? ==> r.error == TextlessMatch(path)
    ensures r.Success? && r.value.Some? ==> r.value.value == Trim(Find(e, path).value.text.value)
  {
    match Find(e, path)
    case None => Success(None)
    case Some(found) =>
      if found.text.None? then Failure(TextlessMatch(path))
      else Success(Some(Trim(found.text.value)))
  }

  /** The record read from an `<rpc-error>` element whose tags are already stripped: on
      success its keys are exactly the five field names (what each holds is
      `ErrorRecordReadsFields`). */
  function ErrorRecord(err: Element): (r: Result<map<string, Option<string>>, Fault>)
    ensures r.Success? ==> r.value.Keys == FieldKeys
    ensures r.Failure? ==> r.error.TextlessMatch?
  {
    var severity :- FindStrip(err, ["error-severity"]);
    var source :- FindStrip(err, ["source-daemon"]);
    var editPath :- FindStrip(err, ["error-path"]);
    var badElement :- FindStrip(err, ["error-info", "bad-element"]);
    var message :- FindStrip(err, ["error-message"]);
    Success(map["severity" := severity, "source" := source, "edit_path" := editPath,
                "bad_element" := badElement, "message" := message])
  }

  /** The record follows the table of fields: it succeeds exactly when every field's lookup
      does, each key then holds what its path gives, and otherwise it raises what the first
      failing field, in table order, raises. */
  lemma ErrorRecordReadsFields(err: Element)
    ensures var r := ErrorRecord(err);
            && (r.Success? <==> forall k :: 0 <= k < |Fields| ==> FindStrip(err, Fields[k].1).Success?)
            && (r.Success? ==> forall k :: 0 <= k < |Fields| ==>
                                 FindStrip(err, Fields[k].1) == Success(r.value[Fields[k].0]))
            && (r.Failure? ==> exists k :: 0 <= k < |Fields| && FindStrip(err, Fields[k].1) == Failure(r.error)
                                           && forall j :: 0 <= j < k ==> FindStrip(err, Fields[j].1).Success?)
  {
    var r := ErrorRecord(err);
    var f := seq(|Fields|, k requires 0 <= k < |Fields| => FindStrip(err, Fields[k].1));
    ErrorRecordSteps(err, f);
    if f[0].Failure? {
      assert r == Failure(f[0].error);
    } else if f[1].Failure? {
      assert r == Failure(f[1].error) && f[0].Success?;
    } else if f[2].Failure? {
      assert r == Failure(f[2].error) && f[0].Success? && f[1].Success?;
    } else if f[3].Failure? {
      assert r == Failure(f[3].error) && f[0].Success? && f[1].Success? && f[2].Success?;
    } else if f[4].Failure? {
      assert r == Failure(f[4].error) && f[0].Success? && f[1].Success? && f[2].Success? && f[3].Success?;
    } else {
      forall k | 0 <= k < |Fields| ensures f[k] == Success(r.value[Fields[k].0]) {
        if k == 0 {} else if k == 1 {} else if k == 2 {} else if k == 3 {} else {}
      }
    }
  }

  /** `ErrorRecord` unfolded over the lookups `f` of the five fields, in table order. */
  lemma ErrorRecordSteps(err: Element, f: seq<Result<Option<string>, Fault>>)
    requires |f| == |Fields| && forall k :: 0 <= k < |Fields| ==> f[k] == FindStrip(err, Fields[k].1)
    ensures var r := ErrorRecord(err);
            && (f[0].Failure? ==> r == Failure(f[0].error))
            && (f[0].Success? && f[1].Failure? ==> r == Failure(f[1].error))
            && (f[0].Success? && f[1].Success? && f[2].Failure? ==> r == Failure(f[2].error))
            && (f[0].Success? && f[1].Success? && f[2].Success? && f[3].Failure? ==> r == Failure(f[3].error))
            && (f[0].Success? && f[1].Success? && f[2].Success? && f[3].Success? && f[4].Failure? ==>
                  r == Failure(f[4].error))
            && (f[0].Success? && f[1].Success? && f[2].Success? && f[3].Success? && f[4].Success? ==>
                  r == Success(map["severity" := f[0].value, "source" := f[1].value, "edit_path" := f[2].value,
                                   "bad_element" := f[3].value, "message" := f[4].value]))
  {
    assert f[0] == FindStrip(err, ["error-severity"]) && f[1] == FindStrip(err, ["source-daemon"]);
    assert f[2] == FindStrip(err, ["error-path"]) && f[3] == FindStrip(err, ["error-info", "bad-element"]);
    assert f[4] == FindStrip(err, ["error-message"]);
  }

  /** `rpc_error(rpc_xml)` on the value of the tree: strip the namespaces, step into the first
      child of an `rpc-reply`, then read the record. It raises `MissingFirstChild` exactly for
      an `rpc-reply` without children. */
  function RpcErrorOf(e: Element): (r: Result<map<string, Option<string>>, Fault>)
    ensures r == Failure(MissingFirstChild) <==> StripTag(e.tag) == "rpc-reply" && |e.children| == 0
  {
    var s := StripTree(e);
    if s.tag == "rpc-reply" then
      if |s.children| == 0 then Failure(MissingFirstChild) else ErrorRecord(s.children[0])
    else ErrorRecord(s)
  }

  /** `rpc_error(rpc_xml)`: strips the namespaces of the caller's tree in place, steps into the
      first child of an `rpc-reply`, and fills the record key by key. */
  method RpcError(rpcXml: Node) returns (r: Result<map<string, Option<string>>, Fault>)
    requires rpcXml.Valid()
    modifies rpcXml.repr
    ensures rpcXml.Value() == StripTree(old(rpcXml.Value()))
    ensures r == RpcErrorOf(old(rpcXml.Value()))
  {
    var _ := RemoveNamespaces(rpcXml);
    var node := rpcXml;
    if node.tag == "rpc-reply" {
      if |node.children| == 0 {
        return Failure(MissingFirstChild);
      }
      node := node.children[0];
    }
    var err := node.Value();
    var thisErr: map<string, Option<string>> := map[];
    var field := FindStrip(err, ["error-severity"]);
    if field.Failure? { return Failure(field.error); }
    thisErr := thisErr["severity" := field.value];
    field := FindStrip(err, ["source-daemon"]);
    if field.Failure? { return Failure(field.error); }
    thisErr := thisErr["source" := field.value];
    field := FindStrip(err, ["error-path"]);
    if field.Failure? { return Failure(field.error); }
    thisErr := thisErr["edit_path" := field.value];
    field := FindStrip(err, ["error-info", "bad-element"]);
    if field.Failure? { return Failure(field.error); }
    thisErr := thisErr["bad_element" := field.value];
    field := FindStrip(err, ["error-message"]);
    if field.Failure? { return Failure(field.error); }
    thisErr := thisErr["message" := field.value];
    return Success(thisErr);
  }

  /** A field read by a one-step path (all but `bad_element`) is `None` exactly when no child of
      the error element has that tag; otherwise it is the trimmed text of the first such child. */
  lemma OneStepField(err: Element, k: nat)
    requires k < |Fields| && |Fields[k].1| == 1 && ErrorRecord(err).Success?
    ensures var value := ErrorRecord(err).value[Fields[k].0];
            var t := Fields[k].1[0];
            && (value.None? <==> forall i :: 0 <= i < |err.children| ==> err.children[i].tag != t)
            && (value.Some? ==>
                  exists i :: 0 <= i < |err.children| && err.children[i].tag == t
                              && (forall j :: 0 <= j < i ==> err.children[j].tag != t)
                              && err.children[i].text.Some?
                              && value == Some(Trim(err.children[i].text.value)))
  {
    assert Fields[k].1 == [Fields[k].1[0]];
    ErrorRecordReadsFields(err);
    FindChild(err, Fields[k].1[0]);
  }

  /** `bad_element` is `None` exactly when no `error-info` child of the error element has a
      `bad-element` child; otherwise it is the trimmed text of the first such grandchild in
      document order. */
  lemma BadElementField(err: Element)
    requires ErrorRecord(err).Success?
    ensures var value := ErrorRecord(err).value["bad_element"];
            && (value.None? <==>
                  forall i, j :: (0 <= i < |err.children| && 0 <= j < |err.children[i].children|
                                  && err.children[i].tag == "error-info") ==> err.children[i].children[j].tag != "bad-element")
            && (value.Some? ==>
                  exists i, j :: 0 <= i < |err.children| && 0 <= j < |err.children[i].children|
                                 && err.children[i].tag == "error-info" && err.children[i].children[j].tag == "bad-element"
                                 && (forall i', j' :: (0 <= i' < i && 0 <= j' < |err.children[i'].children|
                                                       && err.children[i'].tag == "error-info") ==> err.children[i'].children[j'].tag != "bad-element")
                                 && (forall j' :: 0 <= j' < j ==> err.children[i].children[j'].tag != "bad-element")
                                 && err.children[i].children[j].text.Some?
                                 && value == Some(Trim(err.children[i].children[j].text.value)))
  {
    assert Fields[3] == ("bad_element", ["error-info", "bad-element"]);
    ErrorRecordReadsFields(err);
    FindGrandchild(err, "error-info", "bad-element");
  }

  /** An `rpc-reply` gives the record of its first child, provided that child is not itself an
      `rpc-reply` (which would be unwrapped only once, not twice). */
  lemma RpcReplyUnwraps(e: Element)
    requires StripTag(e.tag) == "rpc-reply" && |e.children| > 0
    requires StripTag(e.children[0].tag) != "rpc-reply"
    ensures RpcErrorOf(e) == RpcErrorOf(e.children[0])
  {
  }

  /** An `rpc-reply` unwraps once only: a reply whose one child is an empty `rpc-reply` gives
      the record of that child read as an error element, five `None`s, although the child on
      its own raises `MissingFirstChild`. */
  lemma NestedEmptyReply(outer: string, inner: string)
    requires StripTag(outer) == "rpc-reply" && StripTag(inner) == "rpc-reply"
    ensures var e := Element(outer, None, [Element(inner, None, [])]);
            && RpcErrorOf(e) == Success(map["severity" := None, "source" := None, "edit_path" := None,
                                             "bad_element" := None, "message" := None])
            && RpcErrorOf(e.children[0]) == Failure(MissingFirstChild)
  {
    var e := Element(outer, None, [Element(inner, None, [])]);
    StripLeafWithText(inner, None);
    StripNode(e);
    assert StripTree(e).children[0] == Element("rpc-reply", None, []);
  }

  /** `<rpc-reply><rpc-reply/></rpc-reply>` without namespaces is such a reply. */
  lemma PlainNestedEmptyReply()
    ensures var e := Element("rpc-reply", None, [Element("rpc-reply", None, [])]);
            && RpcErrorOf(e) == Success(map["severity" := None, "source" := None, "edit_path" := None,
                                             "bad_element" := None, "message" := None])
            && RpcErrorOf(e.children[0]) == Failure(MissingFirstChild)
  {
    assert '}' !in "rpc-reply";
    NestedEmptyReply("rpc-reply", "rpc-reply");
  }

  /* ---------- A worked reply ---------- */

  /** The Clark-notation tag `{uri}local`. */
  function Clark(uri: string, local: string): string {
    "{" + uri + "}" + local
  }

  /** A Clark-notation tag strips to its local name when the namespace URI has no `}`. */
  lemma StripClark(uri: string, local: string)
    requires '}' !in uri
    ensures StripTag(Clark(uri, local)) == local
  {
    var t := Clark(uri, local);
    var k := |uri| + 1;
    assert t[k] == '}' && t[..k] == "{" + uri;
    assert t[k + 1..] == local;
  }

  /** A namespace URI holding `}` is cut at its own `}`, leaving part of the URI in the tag. */
  lemma StripClarkBraceInUri()
    ensures Clark("a}b", "x") == "{a}b}x" && StripTag(Clark("a}b", "x")) == "b}x"
  {
    var t := Clark("a}b", "x");
    assert t == "{a}b}x";
    assert t[2] == '}' && '}' !in t[..2];
    assert t[3..] == "b}x";
  }

  /** `text` with one space on each side. */
  function Padded(text: string): string {
    [' '] + text + [' ']
  }

  /** A text that neither starts nor ends with whitespace. */
  predicate Bare(text: string) {
    text != [] && !IsSpace(text[0]) && !IsSpace(text[|text| - 1])
  }

  /** An `<rpc-error>` whose `error-severity` and `error-message` hold the padded texts and which
      has no other child, with every tag in the namespace `uri`. */
  function ExampleError(uri: string, severity: string, message: string): Element {
    Element(Clark(uri, "rpc-error"), None,
            [Element(Clark(uri, "error-severity"), Some(Padded(severity)), []),
             Element(Clark(uri, "error-message"), Some(Padded(message)), [])])
  }

  /** The example error without namespaces. */
  function BareExampleError(severity: string, message: string): Element {
    Element("rpc-error", None, [Element("error-severity", Some(Padded(severity)), []),
                                Element("error-message", Some(Padded(message)), [])])
  }

  /** A reply in any namespace carrying an error with padded texts and no `bad-element`: the
      namespaces go, the reply is unwrapped, the texts are trimmed and the three missing fields
      are `None`. */
  lemma NamespacedReplyExample(uri: string, severity: string, message: string)
    requires '}' !in uri && Bare(severity) && Bare(message)
    ensures RpcErrorOf(Element(Clark(uri, "rpc-reply"), None, [ExampleError(uri, severity, message)]))
            == Success(map["severity" := Some(severity), "source" := None, "edit_path" := None,
                           "bad_element" := None, "message" := Some(message)])
  {
    var e := Element(Clark(uri, "rpc-reply"), None, [ExampleError(uri, severity, message)]);
    StripClark(uri, "rpc-reply");
    StripExampleError(uri, severity, message);
    StripNode(e);
    assert StripTree(e).children == [BareExampleError(severity, message)];
    StrippedExampleRecord(severity, message);
  }

  /** The example error loses its namespace at every element and nothing else. */
  lemma StripExampleError(uri: string, severity: string, message: string)
    requires '}' !in uri
    ensures StripTree(ExampleError(uri, severity, message)) == BareExampleError(severity, message)
  {
    StripClark(uri, "rpc-error");
    StripClark(uri, "error-severity");
    StripClark(uri, "error-message");
    StripTwoLeaves(Clark(uri, "rpc-error"), Clark(uri, "error-severity"), Some(Padded(severity)),
                   Clark(uri, "error-message"), Some(Padded(message)));
  }

  /** An element with two leaf children keeps its shape and texts and strips its three tags. */
  lemma StripTwoLeaves(tag: string, tag0: string, text0: Option<string>, tag1: string, text1: Option<string>)
    ensures StripTree(Element(tag, None, [Element(tag0, text0, []), Element(tag1, text1, [])]))
            == Element(StripTag(tag), None, [Element(StripTag(tag0), text0, []), Element(StripTag(tag1), text1, [])])
  {
    var e := Element(tag, None, [Element(tag0, text0, []), Element(tag1, text1, [])]);
    StripLeafWithText(tag0, text0);
    StripLeafWithText(tag1, text1);
    StripNode(e);
  }

  /** The record of the example error: the two present fields trimmed, the others `None`. */
  lemma StrippedExampleRecord(severity: string, message: string)
    requires Bare(severity) && Bare(message)
    ensures ErrorRecord(BareExampleError(severity, message))
            == Success(map["severity" := Some(severity), "source" := None, "edit_path" := None,
                           "bad_element" := None, "message" := Some(message)])
  {
    var e := BareExampleError(severity, message);
    TrimOnePad(' ', severity, ' ');
    TrimOnePad(' ', message, ' ');
    ExamplePresentFields(severity, message);
    ExampleAbsentFields(severity, message);
    assert FindStrip(e, ["error-severity"]) == Success(Some(severity));
    assert FindStrip(e, ["source-daemon"]) == Success(None);
    assert FindStrip(e, ["error-path"]) == Success(None);
    assert FindStrip(e, ["error-info", "bad-element"]) == Success(None);
    assert FindStrip(e, ["error-message"]) == Success(Some(message));
  }

  /** The example error's two children are found by their tags. */
  lemma ExamplePresentFields(severity: string, message: string)
    ensures var e := BareExampleError(severity, message);
            && FindIn(e.children, ["error-severity"]) == Some(e.children[0])
            && FindIn(e.children, ["error-message"]) == Some(e.children[1])
  {
    var e := BareExampleError(severity, message);
    var sev := e.children[0];
    var msg := e.children[1];
    assert Find(sev, []) == Some(sev) && Find(msg, []) == Some(msg);
    assert FindIn(e.children[1..], ["error-message"]) == Some(msg);
  }

  /** No child of the example error matches the paths of the three other fields. */
  lemma ExampleAbsentFields(severity: string, message: string)
    ensures var e := BareExampleError(severity, message);
            && FindIn(e.children, ["source-daemon"]) == None
            && FindIn(e.children, ["error-path"]) == None
            && FindIn(e.children, ["error-info", "bad-element"]) == None
  {
    var e := BareExampleError(severity, message);
    assert FindIn(e.children[2..], ["source-daemon"]) == None;
    assert FindIn(e.children[1..], ["source-daemon"]) == None;
    assert FindIn(e.children[1..], ["error-path"]) == None;
    assert FindIn(e.children[1..], ["error-info", "bad-element"]) == None;
  }

  /** One step of `StripTree`: the root's tag is stripped and each child is stripped in turn. */
  lemma StripNode(e: Element)
    ensures StripTree(e) == Element(StripTag(e.tag), e.text, MapSeq(StripTree, e.children))
  {
  }

  /** A leaf keeps its text and loses only its tag's namespace. */
  lemma StripLeafWithText(tag: string, text: Option<string>)
    ensures StripTree(Element(tag, text, [])) == Element(StripTag(tag), text, [])
  {
    var s := StripTree(Element(tag, text, []));
    assert |s.children| == 0;
  }

  /** A text padded by one whitespace character on each side trims to its body. */
  lemma TrimOnePad(a: char, body: string, b: char)
    requires IsSpace(a) && IsSpace(b)
    requires body != [] && !IsSpace(body[0]) && !IsSpace(body[|body| - 1])
    ensures Trim([a] + body + [b]) == body
  {
    var s := [a] + body + [b];
    assert s[1..][0] == body[0];
    assert LeadingSpaces(s) == 1;
    assert s[..|s| - 1][|s| - 2] == body[|body| - 1];
    assert TrailingSpaces(s) == 1;
    assert s[1..|s| - 1] == body;
  }
}
