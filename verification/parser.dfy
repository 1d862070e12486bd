/**
 * The XML helpers of nsapi/parser.py over a value model of an ElementTree
 * element: a tag, an optional text, an attribute map and the ordered children.
 * `NodeParse` groups the children of a node by tag; `label_children` keeps the
 * last child per tag; `content` reads a text with "" as default; `sequence`
 * maps a decoder over the children.
 */
module Parser {
  import opened Outcomes

  datatype Element = Element(tag: string, text: Option<string>, attrib: map<string, string>, children: seq<Element>)

  /** `content`: the element's text, or "" when it has none. */
  function Content(e: Element): (r: string)
    ensures e.text.Some? ==> r == e.text.value
    ensures e.text.None? ==> r == ""
  {
    if e.text.Some? && e.text.value != "" then e.text.value else ""
  }

  /** The elements of `cs` whose tag is `t`, in document order. */
  function WithTag(cs: seq<Element>, t: string): (r: seq<Element>)
    ensures |r| <= |cs|
    decreases |cs|
  {
    if cs == [] then []
    else WithTag(cs[..|cs| - 1], t) + (if cs[|cs| - 1].tag == t then [cs[|cs| - 1]] else [])
  }

  /** The distinct tags of `cs` in order of first occurrence (the key order of `child_tags`). */
  function DistinctTags(cs: seq<Element>): seq<string>
    decreases |cs|
  {
    if cs == [] then []
    else
      var rest := DistinctTags(cs[..|cs| - 1]);
      if cs[|cs| - 1].tag in rest then rest else rest + [cs[|cs| - 1].tag]
  }

  /** `child_tags` as `NodeParse.__init__` leaves it: each child appended to the
      list of its tag, a list being created at the first child with that tag. */
  function GroupByTag(cs: seq<Element>): map<string, seq<Element>>
    decreases |cs|
  {
    if cs == [] then map[]
    else
      var groups := GroupByTag(cs[..|cs| - 1]);
      var c := cs[|cs| - 1];
      if c.tag in groups then groups[c.tag := groups[c.tag] + [c]] else groups[c.tag := [c]]
  }

  /** The loop of `NodeParse.__init__` (nsapi/parser.py:19-24). */
  method GroupChildren(cs: seq<Element>) returns (groups: map<string, seq<Element>>)
    ensures groups == GroupByTag(cs)
  {
    groups := map[];
    var i := 0;
    while i < |cs|
      invariant 0 <= i <= |cs|
      invariant groups == GroupByTag(cs[..i])
    {
      var c := cs[i];
      assert cs[..i + 1][..i] == cs[..i];
      if c.tag in groups {
        groups := groups[c.tag := groups[c.tag] + [c]];
      } else {
        groups := groups[c.tag := [c]];
      }
      i := i + 1;
    }
    assert cs[..|cs|] == cs;
  }

  lemma {:induction false} DistinctTagsMembers(cs: seq<Element>)
    ensures forall t :: t in DistinctTags(cs) <==> exists i :: 0 <= i < |cs| && cs[i].tag == t
    ensures forall i, j :: 0 <= i < j < |DistinctTags(cs)| ==> DistinctTags(cs)[i] != DistinctTags(cs)[j]
    decreases |cs|
  {
    if cs != [] {
      var init := cs[..|cs| - 1];
      DistinctTagsMembers(init);
      forall t ensures t in DistinctTags(cs) <==> exists i :: 0 <= i < |cs| && cs[i].tag == t {
        if exists i :: 0 <= i < |cs| && cs[i].tag == t {
          var i :| 0 <= i < |cs| && cs[i].tag == t;
          if i < |init| { assert init[i].tag == t; }
        }
        if exists i :: 0 <= i < |init| && init[i].tag == t {
          var i :| 0 <= i < |init| && init[i].tag == t;
          assert cs[i].tag == t;
        }
      }
    }
  }

  /** `child_tags[t]` lists exactly the children tagged `t`, in document order,
      and `child_tags` has a key for exactly the tags that occur. */
  lemma {:induction false} GroupByTagIsWithTag(cs: seq<Element>)
    ensures forall t :: t in GroupByTag(cs) <==> t in DistinctTags(cs)
    ensures forall t :: t in GroupByTag(cs) ==> GroupByTag(cs)[t] == WithTag(cs, t)
    decreases |cs|
  {
    if cs != [] {
      GroupByTagIsWithTag(cs[..|cs| - 1]);
      WithTagEmpty(cs[..|cs| - 1]);
    }
  }

  /** A tag that does not occur has an empty group, and one that occurs a non-empty group. */
  lemma {:induction false} WithTagEmpty(cs: seq<Element>)
    ensures forall t :: WithTag(cs, t) == [] <==> t !in DistinctTags(cs)
    decreases |cs|
  {
    if cs != [] {
      WithTagEmpty(cs[..|cs| - 1]);
    }
  }

  /** No group of `child_tags` is empty. */
  lemma NoEmptyGroup(cs: seq<Element>)
    ensures forall t :: t in GroupByTag(cs) ==> GroupByTag(cs)[t] != []
  {
    GroupByTagIsWithTag(cs);
    WithTagEmpty(cs);
  }

  /** The sum of `size(t)` over the tags `ts`. */
  function SumOver(ts: seq<string>, size: string -> nat): nat
    decreases |ts|
  {
    if ts == [] then 0 else SumOver(ts[..|ts| - 1], size) + size(ts[|ts| - 1])
  }

  /** Adding one to the size of one tag that occurs once in `ts` adds one to the sum. */
  lemma {:induction false} SumOverBump(ts: seq<string>, f: string -> nat, g: string -> nat, k: string)
    requires forall i, j :: 0 <= i < j < |ts| ==> ts[i] != ts[j]
    requires forall t :: t != k ==> g(t) == f(t)
    requires g(k) == f(k) + 1
    ensures SumOver(ts, g) == SumOver(ts, f) + (if k in ts then 1 else 0)
    decreases |ts|
  {
    if ts != [] {
      var init := ts[..|ts| - 1];
      SumOverBump(init, f, g, k);
      assert k in ts <==> k in init || k == ts[|ts| - 1];
      if ts[|ts| - 1] == k {
        assert k !in init by {
          forall i | 0 <= i < |init| ensures init[i] != k {
            assert ts[i] != ts[|ts| - 1];
          }
        }
      }
    }
  }

  /** The groups of `child_tags` together hold every child exactly once. */
  lemma {:induction false} GroupSizesSum(cs: seq<Element>)
    ensures SumOver(DistinctTags(cs), t => |WithTag(cs, t)|) == |cs|
    decreases |cs|
  {
    if cs != [] {
      var init := cs[..|cs| - 1];
      var c := cs[|cs| - 1];
      GroupSizesSum(init);
      DistinctTagsMembers(init);
      WithTagEmpty(init);
      var f := t => |WithTag(init, t)|;
      var g := t => |WithTag(cs, t)|;
      SumOverBump(DistinctTags(init), f, g, c.tag);
      if c.tag !in DistinctTags(init) {
        assert DistinctTags(cs) == DistinctTags(init) + [c.tag];
        assert DistinctTags(cs)[..|DistinctTags(cs)| - 1] == DistinctTags(init);
      }
    }
  }

  /** `NodeParse(node)`: the node and its children grouped by tag. */
  datatype NodeParse = NodeParse(node: Element, childTags: map<string, seq<Element>>)

  /** The `NodeParse` that the constructor builds for `node`. */
  function Parse(node: Element): (p: NodeParse)
    ensures p.node == node
  {
    NodeParse(node, GroupByTag(node.children))
  }

  /** `has_name`: some child carries the tag. */
  predicate HasName(p: NodeParse, name: string) {
    name in p.childTags
  }

  /** `from_name`: every child with the tag; KeyError when there is none. */
  function FromName(p: NodeParse, name: string): Result<seq<Element>> {
    if name in p.childTags then Ok(p.childTags[name]) else Err(KeyError(name))
  }

  /** `first`: the first child with the tag. */
  function First(p: NodeParse, name: string): Result<Element> {
    var all :- FromName(p, name);
    if |all| > 0 then Ok(all[0]) else Err(IndexError)
  }

  /** `simple`: the text of the first child with the tag, "" when it has no text. */
  function Simple(p: NodeParse, name: string): Result<string> {
    var e :- First(p, name);
    Ok(Content(e))
  }

  /** On a parsed node, `has_name` holds iff some child has the tag. */
  lemma HasNameIff(node: Element, name: string)
    ensures HasName(Parse(node), name) <==> exists i :: 0 <= i < |node.children| && node.children[i].tag == name
  {
    GroupByTagIsWithTag(node.children);
    DistinctTagsMembers(node.children);
  }

  /** `from_name` lists the children with the tag in document order; an absent tag is a KeyError. */
  lemma FromNameSpec(node: Element, name: string)
    ensures FromName(Parse(node), name) ==
      if HasName(Parse(node), name) then Ok(WithTag(node.children, name)) else Err(KeyError(name))
  {
    GroupByTagIsWithTag(node.children);
  }

  /** The first element of a tag group is the earliest child with that tag. */
  lemma {:induction false} WithTagFirst(cs: seq<Element>, t: string)
    requires WithTag(cs, t) != []
    ensures exists i :: (0 <= i < |cs| && cs[i] == WithTag(cs, t)[0]
      && cs[i].tag == t && forall j :: 0 <= j < i ==> cs[j].tag != t)
    decreases |cs|
  {
    var init := cs[..|cs| - 1];
    var last := cs[|cs| - 1];
    assert WithTag(cs, t) == WithTag(init, t) + (if last.tag == t then [last] else []);
    if WithTag(init, t) != [] {
      assert WithTag(cs, t)[0] == WithTag(init, t)[0];
      WithTagFirst(init, t);
      var i :| 0 <= i < |init| && init[i] == WithTag(init, t)[0]
        && init[i].tag == t && forall j :: 0 <= j < i ==> init[j].tag != t;
      assert cs[i] == init[i];
    } else {
      assert WithTag(cs, t)[0] == last;
      WithTagNone(init, t);
      var i := |cs| - 1;
      assert forall j :: 0 <= j < i ==> cs[j] == init[j];
    }
  }

  /** An empty group means no element has the tag. */
  lemma {:induction false} WithTagNone(cs: seq<Element>, t: string)
    requires WithTag(cs, t) == []
    ensures forall j :: 0 <= j < |cs| ==> cs[j].tag != t
    decreases |cs|
  {
    if cs != [] {
      var init := cs[..|cs| - 1];
      WithTagNone(init, t);
      assert forall j :: 0 <= j < |init| ==> cs[j] == init[j];
    }
  }

  /** `first` returns the earliest child with the tag, and raises KeyError when
      there is none (never IndexError, since no group is empty). */
  lemma FirstSpec(node: Element, name: string)
    ensures First(Parse(node), name).Err? <==> !HasName(Parse(node), name)
    ensures First(Parse(node), name).Err? ==> First(Parse(node), name).error == KeyError(name)
    ensures First(Parse(node), name).Ok? ==>
      exists i :: (0 <= i < |node.children| && node.children[i] == First(Parse(node), name).value
        && node.children[i].tag == name && forall j :: 0 <= j < i ==> node.children[j].tag != name)
  {
    NoEmptyGroup(node.children);
    GroupByTagIsWithTag(node.children);
    if HasName(Parse(node), name) {
      WithTagFirst(node.children, name);
    }
  }

  /** `label_children`: each tag mapped to a child, later children overwriting earlier ones. */
  function LabelChildren(cs: seq<Element>): map<string, Element>
    decreases |cs|
  {
    if cs == [] then map[] else LabelChildren(cs[..|cs| - 1])[cs[|cs| - 1].tag := cs[|cs| - 1]]
  }

  /** `label_children` maps each occurring tag to the LAST child with that tag. */
  lemma {:induction false} LabelChildrenLast(cs: seq<Element>)
    ensures forall t :: t in LabelChildren(cs) <==> t in DistinctTags(cs)
    ensures forall t :: t in LabelChildren(cs) ==>
      WithTag(cs, t) != [] && LabelChildren(cs)[t] == WithTag(cs, t)[|WithTag(cs, t)| - 1]
    decreases |cs|
  {
    if cs != [] {
      LabelChildrenLast(cs[..|cs| - 1]);
    }
  }

  /** `sequence(node, key)`: `key` applied to every child in order; the first
      child whose decoding raises makes the whole call raise. */
  function Sequence<T>(cs: seq<Element>, key: Element -> Result<T>): (r: Result<seq<T>>)
    ensures r.Ok? ==> |r.value| == |cs| && forall i :: 0 <= i < |cs| ==> key(cs[i]) == Ok(r.value[i])
    ensures r.Err? ==> exists i :: (0 <= i < |cs| && key(cs[i]) == Err(r.error)
      && forall j :: 0 <= j < i ==> key(cs[j]).Ok?)
    decreases |cs|
  {
    if cs == [] then Ok([])
    else
      match key(cs[0])
      case Err(e) => Err(e)
      case Ok(v) =>
        match Sequence(cs[1..], key)
        case Err(e) =>
          var i :| 0 <= i < |cs[1..]| && key(cs[1..][i]) == Err(e) && forall j :: 0 <= j < i ==> key(cs[1..][j]).Ok?;
          assert key(cs[i + 1]) == Err(e) && forall j :: 0 <= j < i + 1 ==> key(cs[j]).Ok?;
          Err(e)
        case Ok(vs) => Ok([v] + vs)
  }
}
