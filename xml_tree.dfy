/**
 * The part of `xml.etree.ElementTree` the program uses: an element has a
 * tag, attributes, optional text and ordered children.  `Element(tag, ...)`
 * and `SubElement(parent, tag).text = ...` are modelled as functions on
 * element values.
 */
module Xml {

  datatype Option<T> = None | Some(value: T)

  datatype Element = Element(
    tag: string,
    attrib: map<string, string>,
    text: Option<string>,
    children: seq<Element>)

  /** `ET.tostring(element, encoding='unicode')`: how a document becomes text. */
  type Writer = Element -> string

  /** `ET.Element(tag, **attrib)`: the given tag and attributes, no text,
      and a document that reads back as holding no fields at all. */
  function NewElement(tag: string, attrib: map<string, string>): (e: Element)
    ensures e.tag == tag && e.attrib == attrib && e.text == None
    ensures ChildTexts(e, []) == Some([])
    ensures forall tags :: tags != [] ==> ChildTexts(e, tags) == None
  {
    Element(tag, attrib, None, [])
  }

  /** A child element that holds only text. */
  function Leaf(tag: string, text: string): Element {
    Element(tag, map[], Some(text), [])
  }

  /** `ET.SubElement(parent, tag).text = text`: the parent gains one last
      child, a text-only leaf with that tag and text; its earlier children
      and everything else about it stay as they were. */
  function SubElement(parent: Element, tag: string, text: string): (r: Element)
    ensures r.tag == parent.tag && r.attrib == parent.attrib && r.text == parent.text
    ensures |r.children| == |parent.children| + 1
    ensures r.children[..|parent.children|] == parent.children
    ensures var last := r.children[|parent.children|];
            last.tag == tag && last.text == Some(text) && last.attrib == map[] && last.children == []
  {
    parent.(children := parent.children + [Leaf(tag, text)])
  }

  /** Reads a document back: the texts of the children of `e`, provided
      its children are exactly one text-only leaf per tag of `tags`, in that
      order. */
  function ChildTexts(e: Element, tags: seq<string>): Option<seq<string>> {
    ChildTextsOf(e.children, tags)
  }

  function ChildTextsOf(children: seq<Element>, tags: seq<string>): Option<seq<string>> {
    if |children| != |tags| then None
    else if children == [] then Some([])
    else
      var c := children[0];
      if c.tag != tags[0] || !c.text.Some? || c.attrib != map[] || c.children != [] then None
      else
        match ChildTextsOf(children[1..], tags[1..])
        case None => None
        case Some(rest) => Some([c.text.value] + rest)
  }

  /** Reading back what was appended: a document that reads back against
      `tags` and gains one more text leaf reads back against `tags + [tag]`,
      with that leaf's text last. */
  lemma {:induction false} ReadAppended(children: seq<Element>, tags: seq<string>, tag: string, text: string)
    requires ChildTextsOf(children, tags).Some?
    ensures ChildTextsOf(children + [Leaf(tag, text)], tags + [tag]) == Some(ChildTextsOf(children, tags).value + [text])
  {
    if children == [] {
      var leaf := Leaf(tag, text);
      assert ChildTextsOf([leaf][1..], [tag][1..]) == Some([]);
      calc {
        ChildTextsOf(children + [leaf], tags + [tag]);
        { assert children + [leaf] == [leaf] && tags + [tag] == [tag]; }
        ChildTextsOf([leaf], [tag]);
        Some([text] + []);
        { assert [text] + [] == ChildTextsOf(children, tags).value + [text]; }
        Some(ChildTextsOf(children, tags).value + [text]);
      }
    } else {
      assert (children + [Leaf(tag, text)])[1..] == children[1..] + [Leaf(tag, text)];
      assert (tags + [tag])[1..] == tags[1..] + [tag];
      assert (children + [Leaf(tag, text)])[0] == children[0];
      assert (tags + [tag])[0] == tags[0];
      ReadAppended(children[1..], tags[1..], tag, text);
      var rest := ChildTextsOf(children[1..], tags[1..]).value;
      assert ChildTextsOf(children, tags).value == [children[0].text.value] + rest;
      assert [children[0].text.value] + (rest + [text]) == [children[0].text.value] + rest + [text];
    }
  }

  /** Reading back fixes the children: children that read back against
      `tags` as `texts` are exactly one text leaf per tag, with those texts. */
  lemma {:induction false} ReadBackDetermines(children: seq<Element>, tags: seq<string>, texts: seq<string>)
    requires ChildTextsOf(children, tags) == Some(texts)
    ensures |children| == |tags| == |texts|
    ensures forall k :: 0 <= k < |children| ==> children[k] == Leaf(tags[k], texts[k])
  {
    if children != [] {
      var rest := ChildTextsOf(children[1..], tags[1..]).value;
      ReadBackDetermines(children[1..], tags[1..], rest);
      assert texts == [children[0].text.value] + rest;
      forall k | 0 <= k < |children| ensures children[k] == Leaf(tags[k], texts[k]) {
        if k > 0 {
          assert children[k] == children[1..][k - 1] && tags[k] == tags[1..][k - 1];
        }
      }
    }
  }

  /** `ReadAppended` for a whole element: appending a text leaf extends
      what the element reads back as by that tag and text. */
  lemma {:induction false} ReadSubElement(parent: Element, tags: seq<string>, tag: string, text: string)
    requires ChildTexts(parent, tags).Some?
    ensures ChildTexts(SubElement(parent, tag, text), tags + [tag]) == Some(ChildTexts(parent, tags).value + [text])
  {
    ReadAppended(parent.children, tags, tag, text);
  }
}
