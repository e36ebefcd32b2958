/** The element tree the updater walks: an already-parsed XML document (the byte-level
    parser is not part of this model), tag handling and the few ElementTree queries the
    updater issues. */
module Xml {
  import opened Wrappers

  /** An ElementTree element: its raw tag (with a `{namespace}` prefix when qualified),
      its optional text and its children in document order. */
  datatype Element = Element(tag: string, text: Option<string>, children: seq<Element>)

  /** The tag of the SOAP envelope's body element, as `root.find` is asked for it. */
  const BODY_TAG: string := "{http://schemas.xmlsoap.org/soap/envelope/}Body"

  /** The part of `s` after the last `c`, or all of `s` when `c` does not occur. */
  function AfterLast(s: string, c: char): string {
    if |s| == 0 then s
    else if s[|s| - 1] == c then []
    else AfterLast(s[..|s| - 1], c) + [s[|s| - 1]]
  }

  lemma {:induction false} AfterLastSpec(s: string, c: char)
    ensures var r := AfterLast(s, c);
      && |r| <= |s| && r == s[|s| - |r|..]
      && c !in r
      && (c in s ==> s[|s| - |r| - 1] == c)
      && (c !in s ==> r == s)
  {
    if |s| > 0 && s[|s| - 1] != c {
      var front := s[..|s| - 1];
      AfterLastSpec(front, c);
      var r := AfterLast(front, c);
      assert s == front + [s[|s| - 1]];
      assert c in s ==> c in front;
    }
  }

  /** `strip_tag`: drops a `{namespace}` qualification by keeping what follows the last `}`. */
  function StripTag(tag: string): string {
    if '}' in tag then AfterLast(tag, '}') else tag
  }

  /** The local name holds no `}`; an unqualified tag is its own local name; a qualified
      one keeps exactly the characters after its last `}`. */
  lemma StripTagSpec(tag: string)
    ensures var r := StripTag(tag);
      && '}' !in r
      && ('}' !in tag ==> r == tag)
      && ('}' in tag ==> |r| < |tag| && r == tag[|tag| - |r|..] && tag[|tag| - |r| - 1] == '}')
  {
    AfterLastSpec(tag, '}');
  }

  lemma StripTagIdempotent(tag: string)
    ensures StripTag(StripTag(tag)) == StripTag(tag)
  {
    StripTagSpec(tag);
    StripTagSpec(StripTag(tag));
  }

  /** `e.iter()`: the element itself, then each child's subtree in document order. */
  function PreOrder(e: Element): (r: seq<Element>)
    ensures |r| > 0 && r[0] == e
    decreases e, 1
  {
    [e] + PreOrderAll(e.children)
  }

  function PreOrderAll(es: seq<Element>): seq<Element>
    decreases es, 0
  {
    if es == [] then [] else PreOrder(es[0]) + PreOrderAll(es[1..])
  }

  /** The first element of `es` whose raw tag is `tag`. */
  function FirstTagged(es: seq<Element>, tag: string): Option<Element> {
    if es == [] then None
    else if es[0].tag == tag then Some(es[0])
    else FirstTagged(es[1..], tag)
  }

  lemma {:induction false} FirstTaggedSpec(es: seq<Element>, tag: string)
    ensures FirstTagged(es, tag).None? <==> forall i :: 0 <= i < |es| ==> es[i].tag != tag
    ensures FirstTagged(es, tag).Some? ==>
      exists i :: (0 <= i < |es| && es[i] == FirstTagged(es, tag).value && es[i].tag == tag
                   && forall j :: 0 <= j < i ==> es[j].tag != tag)
  {
    if es != [] && es[0].tag != tag {
      FirstTaggedSpec(es[1..], tag);
      assert forall j :: 1 <= j < |es| ==> es[j] == es[1..][j - 1];
      if FirstTagged(es, tag).Some? {
        var i :| 0 <= i < |es[1..]| && es[1..][i] == FirstTagged(es, tag).value && es[1..][i].tag == tag
                 && forall j :: 0 <= j < i ==> es[1..][j].tag != tag;
        assert es[i + 1] == FirstTagged(es, tag).value;
      }
    }
  }

  /** `root.find(".//{soap-envelope}Body")`: the first descendant of `root` in document order
      that is the SOAP body. */
  function FindBody(root: Element): Option<Element> {
    FirstTagged(PreOrderAll(root.children), BODY_TAG)
  }

  /** `e.findall("./tag")`: the direct children of `e` whose raw tag is `tag`, in order. */
  function ChildrenTagged(e: Element, tag: string): seq<Element> {
    Tagged(e.children, tag)
  }

  function Tagged(es: seq<Element>, tag: string): seq<Element> {
    if es == [] then []
    else (if es[0].tag == tag then [es[0]] else []) + Tagged(es[1..], tag)
  }

  lemma {:induction false} TaggedMembers(es: seq<Element>, tag: string)
    ensures forall x :: x in Tagged(es, tag) <==> x in es && x.tag == tag
  {
    if es != [] {
      TaggedMembers(es[1..], tag);
      assert es == [es[0]] + es[1..];
    }
  }

  /** The first grandchild tagged `tag2` below a child tagged `tag1`, children taken in
      order (what ElementTree selects first for the path `./tag1/tag2`). */
  function FirstGrandchild(es: seq<Element>, tag1: string, tag2: string): Option<Element> {
    if es == [] then None
    else
      var below := if es[0].tag == tag1 then FirstTagged(es[0].children, tag2) else None;
      if below.Some? then below else FirstGrandchild(es[1..], tag1, tag2)
  }

  /** `findtext` turns a match into its text, a missing text into "". */
  function TextOrEmpty(found: Option<Element>): Option<string> {
    match found
    case None => None
    case Some(x) => Some(x.text.GetOr(""))
  }

  /** `e.findtext("./tag")` */
  function ChildText(e: Element, tag: string): Option<string> {
    TextOrEmpty(FirstTagged(e.children, tag))
  }

  /** `e.findtext("./tag1/tag2")` */
  function GrandchildText(e: Element, tag1: string, tag2: string): Option<string> {
    TextOrEmpty(FirstGrandchild(e.children, tag1, tag2))
  }
}
