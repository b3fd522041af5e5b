# Junos XML helpers, modelled in Dafny

This project models the self-contained core of `lib/jnpr/junos/jxml.py` from py-junos-eznc, the
helpers that the Junos NETCONF layer uses to post-process XML replies:

- the **attribute maps** (`DEL`, `REN`, `ACTIVATE`, `DEACTIVATE`, `REPLACE`, `BEFORE`, `AFTER`,
  `NAMES_ONLY`, `INHERIT`, `INHERIT_GROUPS`, `INHERIT_DEFAULTS`) and their constructors `NAME` and
  `INSERT`, as immutable Dafny maps (`Jxml.Del`, …, `Jxml.Name`, `Jxml.Insert`);
- **`remove_namespaces`**, which walks every element of a tree in document order and cuts each
  tag after its first `}` in place, so that a Clark-notation tag `{uri}local` whose namespace
  URI has no `}` becomes `local` (`Jxml.RemoveNamespaces`);
- **`rpc_error`**, which strips the namespaces of the caller's tree, steps into the first child of
  an `rpc-reply`, and reads a five-key record (`severity`, `source`, `edit_path`, `bad_element`,
  `message`) from the paths `error-severity`, `source-daemon`, `error-path`,
  `error-info/bad-element` and `error-message` (`Jxml.RpcError`).

Files:

- `wrappers.dfy` — `Option` (Python's `None` or a value) and `Result` (a value or the exception
  raised).
- `text.dfy` — `str.find` of one character (`IndexOf`) and `str.strip()` (`Trim`) over a fixed
  whitespace predicate.
- `etree.dfy` — the parts of an lxml tree the helpers touch. `Element` is the value of a
  subtree (tag, optional text, ordered children). `Node` is an element object of a parsed
  document whose `tag` can be reassigned; its text and children are fixed, `repr` is its
  subtree's set of objects and `Value()` its current value. `PreOrder()` is the order in which
  `getiterator()` yields elements. `Find` is ElementTree's `find` for relative tag paths.
- `jxml.dfy` — the helpers themselves.

`remove_namespaces` and `rpc_error` are imperative in the source and stay so here: both are
methods that update `Node.tag` in place (`modifies xml.repr`), the first with a loop over the
pre-order walk, the second filling the record key by key. Each is proved against a function on
tree values (`StripTree`, `RpcErrorOf`), and the lemmas state what those functions promise. The
element passed in is the root of the subtree the model holds; its ancestors and siblings lie
outside `repr`, so the `modifies` clause says they are untouched.

Where the code and the usual description of it differ, the model follows the code:

- Namespace removal is not idempotent in general. A tag with two `}` loses one prefix per pass
  (`{a}{b}x`, then `{b}x`, then `x`: `StripTreeNotIdempotent`). It is idempotent when no tag has
  more than one `}` (`StripTreeIdempotent`), which holds for every Clark-notation tag whose
  namespace URI has no `}`. The tag `{a}{b}x` is itself the Clark tag of the URI `a}{b`.
- `rpc_error` does not always degrade to a record of `None`s. An `rpc-reply` without children
  raises (`IndexError` on `rpc_xml[0]`: `Fault.MissingFirstChild`). A matched element whose text
  is `None` raises too (`AttributeError` on `.strip()`: `Fault.TextlessMatch(path)`). The first
  field in fill order that raises decides the exception. In lxml a tree holding a comment or a
  processing instruction raises as well, in `remove_namespaces` (see "Left out").
- An `rpc-reply` is guaranteed to give the record of its first child when that child is not
  itself an `rpc-reply` (`RpcReplyUnwraps`). The source unwraps once only, so a nested reply can
  differ from its child: `<rpc-reply><rpc-reply/></rpc-reply>` gives five `None`s, while the
  inner `<rpc-reply/>` on its own raises `MissingFirstChild` (`NestedEmptyReply`,
  `PlainNestedEmptyReply`).

## Model

| member | source | states |
|---|---|---|
| `Text.IndexOf` | lib/jnpr/junos/jxml.py:118 | `tag.find('}')` is -1 exactly when there is no `}`, and otherwise the index of a `}` with none before it |
| `Text.Trim` | lib/jnpr/junos/jxml.py:136 | `text.strip()` is the slice of the text after its leading whitespace, everything after the slice is whitespace, and the slice neither starts nor ends with whitespace |
| `Text.IsSpace` | lib/jnpr/junos/jxml.py:136 | the characters `str.strip()` removes include space, tab, newline and carriage return, exclude every visible ASCII character, and lie at or above tab |
| `Text.TrimIdempotent` | lib/jnpr/junos/jxml.py:136 | stripping a stripped text changes nothing |
| `Jxml.Name` | lib/jnpr/junos/jxml.py:26-27 | `NAME(n)` is the one-entry map whose only key is `name`, bound to `n` unchanged |
| `Jxml.Insert` | lib/jnpr/junos/jxml.py:30-31 | `INSERT(c)` is the one-entry map whose only key is `insert`, bound to `c` unchanged |
| `Jxml.ReorderConstants` | lib/jnpr/junos/jxml.py:19-44 | `INSERT('before') == BEFORE` and `INSERT('after') == AFTER`; `BEFORE` and `AFTER` differ, as do `INHERIT`, `INHERIT_GROUPS` and `INHERIT_DEFAULTS` from one another; `DEL`, `REN` and `NAMES_ONLY` are exactly the one-entry maps the source writes |
| `Jxml.StripTag` | lib/jnpr/junos/jxml.py:118-120 | a tag with no `}`, or whose first `}` is at index 0, is unchanged; otherwise the result is the text after the first `}`, which is at an index above 0 |
| `Jxml.StripTagTwoPrefixes` | lib/jnpr/junos/jxml.py:118-120 | only the first prefix goes: `{a}{b}x` becomes `{b}x`, which becomes `x` |
| `Jxml.StripTagIdempotent` | lib/jnpr/junos/jxml.py:118-120 | a tag with at most one `}` is not changed by a second strip |
| `Jxml.StripTree` | lib/jnpr/junos/jxml.py:116-121 | the stripped tree's root tag is the input's root tag stripped, and it has the input's shape: the same texts and the same number of children at every element, in the same order |
| `Jxml.StripTreeChangesOnlyTags` | lib/jnpr/junos/jxml.py:116-121 | stripping keeps the tree's shape, child order and texts, and its tags in document order are the input's tags each stripped |
| `Jxml.StripTreeUnique` | lib/jnpr/junos/jxml.py:116-121 | any tree with the input's shape whose document-order tags are the input's tags each stripped is the stripped tree, so the two facts above specify it completely |
| `Jxml.StripTreeIdempotent` | lib/jnpr/junos/jxml.py:116-121 | a second namespace removal changes nothing when no tag has more than one `}` |
| `Jxml.StripTreeNotIdempotent` | lib/jnpr/junos/jxml.py:116-121 | a tree whose tag is `{a}{b}x` becomes `{b}x` and then `x`, so removal is not idempotent in general |
| `ETree.Node.constructor` | lib/jnpr/junos/jxml.py:116-121 | an element object built from a tag, a text and children heading disjoint subtrees heads a well-formed subtree holding exactly itself and its children's subtrees |
| `ETree.Node.Value` | lib/jnpr/junos/jxml.py:116-121 | the value a node holds has the node's current tag and its text, and one child per child object, each the value that child holds |
| `ETree.Node.PreOrderTags` | lib/jnpr/junos/jxml.py:117 | the tags `getiterator()` meets, in the order it meets them, are the tags of the subtree's value in document order |
| `ETree.Node.PreOrder` | lib/jnpr/junos/jxml.py:117 | `getiterator()` yields the root first, then every element of the subtree exactly once and no other object |
| `Jxml.StrippedInPlace` | lib/jnpr/junos/jxml.py:117-120 | once every element object of a subtree has its tag stripped in place, the subtree holds the stripped tree |
| `Jxml.RemoveNamespaces` | lib/jnpr/junos/jxml.py:116-121 | changes only tags of the given subtree, strips each element's tag exactly once, leaves the subtree holding `StripTree` of its old value, and returns the same element |
| `ETree.Find` | lib/jnpr/junos/jxml.py:135 | `find` of the empty path is the element itself, and an element found by a non-empty path carries the path's last step as its tag |
| `ETree.FindIn` | lib/jnpr/junos/jxml.py:135 | an element a path finds from a list of siblings carries the path's last step as its tag, and an empty list finds nothing |
| `ETree.FindInFirst` | lib/jnpr/junos/jxml.py:135 | a path step answers from the first sibling it matches in order, and finds nothing exactly when it matches none |
| `ETree.FindChild` | lib/jnpr/junos/jxml.py:139-141 | `find('t')` is the first child tagged `t`, and `None` exactly when no child has that tag |
| `ETree.FindGrandchild` | lib/jnpr/junos/jxml.py:142 | `find('error-info/bad-element')` is the first `bad-element` child of an `error-info` child in document order, and `None` exactly when there is none |
| `Jxml.FindStrip` | lib/jnpr/junos/jxml.py:134-136 | `find_strip` is `None` exactly when `find` matches nothing, raises exactly when the match has no text, and otherwise is the match's text trimmed |
| `Jxml.ErrorRecord` | lib/jnpr/junos/jxml.py:138-145 | a record that is returned has exactly the keys `severity`, `source`, `edit_path`, `bad_element`, `message`; only a textless match raises |
| `Jxml.ErrorRecordReadsFields` | lib/jnpr/junos/jxml.py:138-145 | the record succeeds exactly when every field lookup does, each key then holds what its path gives, and otherwise it raises what the first failing field in fill order raises |
| `Jxml.OneStepField` | lib/jnpr/junos/jxml.py:139-143 | `severity`, `source`, `edit_path` and `message` are `None` exactly when no child of the error element has their tag, and otherwise the trimmed text of the first such child |
| `Jxml.BadElementField` | lib/jnpr/junos/jxml.py:142 | `bad_element` is `None` exactly when no `error-info` child has a `bad-element` child, and otherwise the trimmed text of the first such grandchild |
| `Jxml.RpcErrorOf` | lib/jnpr/junos/jxml.py:129-145 | `rpc_error` on tree values raises `MissingFirstChild` exactly when the stripped root is an `rpc-reply` without children |
| `Jxml.RpcReplyUnwraps` | lib/jnpr/junos/jxml.py:131-132 | an `rpc-reply` whose first child is not itself an `rpc-reply` gives the same result as that first child |
| `Jxml.NestedEmptyReply` | lib/jnpr/junos/jxml.py:131-132 | a reply whose one child is an empty `rpc-reply`, under any tags that strip to `rpc-reply`, gives five `None`s, while that child on its own raises `MissingFirstChild` |
| `Jxml.PlainNestedEmptyReply` | lib/jnpr/junos/jxml.py:131-132 | `<rpc-reply><rpc-reply/></rpc-reply>` gives five `None`s, while `<rpc-reply/>` raises `MissingFirstChild` |
| `Jxml.NamespacedReplyExample` | lib/jnpr/junos/jxml.py:124-145 | for every namespace URI without `}`, an `rpc-reply` holding an `rpc-error` whose `error-severity` and `error-message` texts are padded with spaces gives those texts trimmed and `None` for the three missing fields |
| `Jxml.StripClark` | lib/jnpr/junos/jxml.py:118-120 | a Clark-notation tag `{uri}local` whose URI has no `}` strips to `local` |
| `Jxml.StripClarkBraceInUri` | lib/jnpr/junos/jxml.py:118-120 | the Clark tag of the URI `a}b` and the local name `x` strips to `b}x`, not to `x`: the cut is at the first `}`, inside the URI |
| `Jxml.TrimOnePad` | lib/jnpr/junos/jxml.py:136 | a text with one whitespace character on each side of a body that neither starts nor ends with whitespace strips to that body |
| `Jxml.RpcError` | lib/jnpr/junos/jxml.py:124-145 | strips the caller's tree in place before any lookup, and returns the record or the exception of `RpcErrorOf` on the tree's old value |

## Left out

- `conf_xslt`, `conf_xslt_root`, `conf_transform` and `normalize_xslt`: XSLT stylesheets whose
  meaning is the XSLT and XPath engine of lxml, which is not part of this model.
- `cscript_conf`: made entirely of calls into ncclient's device handler and lxml serialisation,
  with a bare `except` returning `None`; none of that code is part of this model.
- XML parsing and serialisation, element attributes and tail text: the helpers do not read them.
- Comments, processing instructions and entities: `getiterator()` and `rpc_xml[0]` also yield
  these in lxml. Their `tag` is a factory function, not a string, so `elem.tag.find('}')`
  (lib/jnpr/junos/jxml.py:118) raises `AttributeError`, and `remove_namespaces` and `rpc_error`
  both raise on a tree that holds one. The model's trees hold elements only, so
  `RemoveNamespaces` never raises and `RpcError` raises only the two faults of `Fault`.
- Tag validation on assignment: lxml refuses an invalid tag name such as the empty string; the
  model assigns any string. A namespace URI containing `}` (such as `a}b`) strips to a string
  lxml refuses (`{a}b}x` becomes `b}x`: `StripClarkBraceInUri`), so `remove_namespaces`
  raises `ValueError`; the model does not.
- Whitespace: the set `str.strip()` removes is Python's `str.isspace()` set written out as fixed code
  points; it does not follow later changes of the Unicode database.
- Dictionary insertion order: the record is a Dafny map, so the order in which keys were added
  is not represented (the fill order still decides which exception is raised).
