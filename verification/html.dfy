/**
 * The `tag` helper (main.py:157-161): an element whose attributes are written
 * in insertion order, with no escaping of names, values or content.
 */
module Html {

  /** An insertion-ordered attribute dictionary. */
  type Attributes = seq<(string, string)>

  /** One attribute as `tag` writes it: ` k="v"`. */
  function Attribute(kv: (string, string)): string {
    " " + kv.0 + "=\"" + kv.1 + "\""
  }

  /** The attribute text of `tag`: every attribute, in order. */
  function AttributeText(attrs: Attributes): (t: string)
    ensures |attrs| == 0 <==> t == ""
    ensures |attrs| > 0 ==> t[0] == ' ' && t[|t| - 1] == '"'
    decreases |attrs|
  {
    if |attrs| == 0 then "" else AttributeText(attrs[..|attrs| - 1]) + Attribute(attrs[|attrs| - 1])
  }

  /** `tag(name, content, attributes)`. */
  function Tag(name: string, content: string, attrs: Attributes): (r: string)
    ensures |r| == 2 * |name| + |AttributeText(attrs)| + |content| + 7
    ensures r[0] == '<' && r[|r| - 1] == '>'
  {
    "<" + name + AttributeText(attrs) + "> " + content + " </" + name + ">"
  }

  /**
   * A tag opens with `<name`, closes with ` </name>`, and between the
   * attribute text plus "> " and that closing sits exactly the content.
   */
  lemma TagParts(name: string, content: string, attrs: Attributes)
    ensures var r := Tag(name, content, attrs);
      && |r| == 2 * |name| + |AttributeText(attrs)| + |content| + 7
      && r[..1 + |name|] == "<" + name
      && r[1 + |name|..1 + |name| + |AttributeText(attrs)|] == AttributeText(attrs)
      && r[1 + |name| + |AttributeText(attrs)|..][..2] == "> "
      && r[1 + |name| + |AttributeText(attrs)| + 2..|r| - |name| - 4] == content
      && r[|r| - |name| - 4..] == " </" + name + ">"
  {
    var opening := "<" + name + AttributeText(attrs) + "> ";
    var closing := " </" + name + ">";
    assert Tag(name, content, attrs) == opening + content + closing;
    Split3(opening, content, closing);
    Split3("<" + name, AttributeText(attrs), "> ");
  }

  /** The three pieces of a concatenation can be sliced back out. */
  lemma Split3(a: string, b: string, c: string)
    ensures |a + b + c| == |a| + |b| + |c|
    ensures (a + b + c)[..|a|] == a
    ensures (a + b + c)[|a|..|a| + |b|] == b
    ensures (a + b + c)[|a| + |b|..] == c
  {
  }

  /** The attribute text of a concatenation is the concatenation of the texts. */
  lemma {:induction false} AttributeTextAppend(a: Attributes, b: Attributes)
    ensures AttributeText(a + b) == AttributeText(a) + AttributeText(b)
    decreases |b|
  {
    if |b| > 0 {
      var b' := b[..|b| - 1];
      assert (a + b)[..|a + b| - 1] == a + b';
      AttributeTextAppend(a, b');
    } else {
      assert a + b == a;
    }
  }

  /** With no attributes a tag is `<name> content </name>`. */
  lemma TagWithoutAttributes(name: string, content: string)
    ensures Tag(name, content, []) == "<" + name + "> " + content + " </" + name + ">"
  {
  }

  /** Three attributes appear in the order given. */
  lemma TagWithThreeAttributes(name: string, content: string, a: (string, string), b: (string, string), c: (string, string))
    ensures Tag(name, content, [a, b, c])
         == "<" + name + Attribute(a) + Attribute(b) + Attribute(c) + "> " + content + " </" + name + ">"
  {
    AttributeTextThree(a, b, c);
  }

  /** The attribute text of three attributes is theirs, in order. */
  lemma AttributeTextThree(a: (string, string), b: (string, string), c: (string, string))
    ensures AttributeText([a, b, c]) == Attribute(a) + Attribute(b) + Attribute(c)
  {
    assert [a, b, c][..2] == [a, b];
    assert [a, b][..1] == [a];
    assert [a][..0] == [];
    assert AttributeText([a]) == Attribute(a);
    assert AttributeText([a, b]) == Attribute(a) + Attribute(b);
  }
}
