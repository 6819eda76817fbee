/**
 * The small XML scanner the SVG loader uses: the document is cut into tokens
 * at '<' and '>', every token is classified as an opening, closing or
 * self-closing tag or as content, and its name and its `key="value"` pairs
 * are picked out. The functions here describe what the scan produces; the
 * `XmlParser` and `XmlElement` classes carry it out.
 */
module Xml {
  import opened Bytes
  import opened Outcome

  datatype ElementType = OpeningElement | ClosingElement | SelfclosingElement | Content

  /** The fixed description of each element type. */
  function TypeToStr(t: ElementType): string
  {
    match t
    case OpeningElement => "Opening element"
    case ClosingElement => "Closing element"
    case SelfclosingElement => "Self-closing element"
    case Content => "Content"
  }

  /** Different types are described differently. */
  lemma TypeNamesDistinct(t: ElementType, u: ElementType)
    requires t != u
    ensures TypeToStr(t) != TypeToStr(u)
  {
    assert TypeToStr(t)[0] != TypeToStr(u)[0] || |TypeToStr(t)| != |TypeToStr(u)|;
  }

  /** What the scan records of an element: its name, its type and its attributes. */
  datatype ElementData = ElementData(name: string, elementType: ElementType, attributes: map<string, string>)

  // Character classes of the C locale.
  predicate IsSpaceChar(c: char) { IsSpace(c as int) }
  predicate IsNotSpaceChar(c: char) { !IsSpaceChar(c) }
  /** Characters of an element name. */
  predicate IsNameChar(c: char) { IsAlpha(c as int) || c == ':' || c == '?' }
  /** Characters of an attribute key. */
  predicate IsKeyChar(c: char) { IsAlpha(c as int) || c == ':' }
  predicate IsNotKeyChar(c: char) { !IsKeyChar(c) }
  predicate IsNotQuote(c: char) { c != '"' }

  // ---------------------------------------------------------------------
  // Cutting the document into tokens.
  // ---------------------------------------------------------------------

  /** The tokens emitted so far and the token being gathered. */
  datatype Pieces = Pieces(tokens: seq<string>, current: string)

  /**
   * The tokenizer after reading `doc`: '<' emits the token gathered so far,
   * even an empty one, and starts a new one with itself; '>' ends the token
   * it closes and emits it; any other character is gathered.
   */
  function Split(doc: string): Pieces
  {
    if doc == [] then Pieces([], [])
    else
      var p, c := Split(doc[..|doc| - 1]), doc[|doc| - 1];
      if c == '<' then Pieces(p.tokens + [p.current], ['<'])
      else if c == '>' then Pieces(p.tokens + [p.current + ['>']], [])
      else Pieces(p.tokens, p.current + [c])
  }

  function Concat(ts: seq<string>): string
  {
    if ts == [] then [] else Concat(ts[..|ts| - 1]) + ts[|ts| - 1]
  }

  /** The tokens, followed by the text after the last boundary that is never emitted, are the document. */
  lemma {:induction false} SplitKeepsText(doc: string)
    ensures Concat(Split(doc).tokens) + Split(doc).current == doc
  {
    if doc != [] {
      var d, c := doc[..|doc| - 1], doc[|doc| - 1];
      var p := Split(d);
      SplitKeepsText(d);
      assert doc == d + [c];
      if c == '<' {
        assert (p.tokens + [p.current])[..|p.tokens|] == p.tokens;
      } else if c == '>' {
        assert (p.tokens + [p.current + ['>']])[..|p.tokens|] == p.tokens;
      }
    }
  }

  /** A token holds '<' at most first and '>' at most last. */
  ghost predicate Delimited(t: string)
  {
    (forall j | 0 < j < |t| :: t[j] != '<') && (forall j | 0 <= j < |t| - 1 :: t[j] != '>')
  }

  /** Every token holds '<' at most first and '>' at most last; the text still gathered has no '>'. */
  lemma {:induction false} TokensDelimited(doc: string)
    ensures forall i | 0 <= i < |Split(doc).tokens| :: Delimited(Split(doc).tokens[i])
    ensures Delimited(Split(doc).current) && forall j | 0 <= j < |Split(doc).current| :: Split(doc).current[j] != '>'
  {
    if doc != [] {
      TokensDelimited(doc[..|doc| - 1]);
    }
  }

  /** Characters other than '<' and '>' are only gathered. */
  lemma {:induction false} SplitPlain(d: string, w: string)
    requires forall j | 0 <= j < |w| :: w[j] != '<' && w[j] != '>'
    ensures Split(d + w) == Pieces(Split(d).tokens, Split(d).current + w)
    decreases |w|
  {
    if w == [] {
      assert d + w == d;
    } else {
      var w' := w[..|w| - 1];
      assert (d + w)[..|d + w| - 1] == d + w';
      SplitPlain(d, w');
      assert Split(d).current + w' + [w[|w| - 1]] == Split(d).current + w;
    }
  }

  // ---------------------------------------------------------------------
  // One token.
  // ---------------------------------------------------------------------

  /** The first position from `i` on where `p` fails, or the end of `s`. */
  function Skip(s: string, i: nat, p: char -> bool): (r: nat)
    ensures r >= i && (i <= |s| ==> r <= |s|)
    ensures forall k | i <= k < r :: k < |s| && p(s[k])
    ensures r >= |s| || !p(s[r])
    decreases |s| - i
  {
    if i < |s| && p(s[i]) then Skip(s, i + 1, p) else i
  }

  /** The token without its leading whitespace; trailing whitespace stays. */
  function TrimLeading(t: string): (r: string)
    ensures |r| <= |t| && r == t[|t| - |r|..]
    ensures forall k | 0 <= k < |t| - |r| :: IsSpaceChar(t[k])
    ensures r == [] || !IsSpaceChar(r[0])
  {
    t[Skip(t, 0, IsSpaceChar)..]
  }

  /**
   * `substr(pos, count)` where `count` was computed in unsigned arithmetic: a
   * negative count stands for one that wrapped around to a huge value, and a
   * count past the end is cut at the end.
   */
  function Substr(s: string, pos: nat, count: int): (r: string)
    requires pos <= |s|
    ensures count >= 0 && pos + count <= |s| ==> r == s[pos..pos + count]
    ensures count < 0 || pos + count > |s| ==> r == s[pos..]
  {
    if count < 0 || pos + count > |s| then s[pos..] else s[pos..pos + count]
  }

  /** A token's type and the text left once its brackets are stripped. */
  datatype Classified = Classified(elementType: ElementType, text: string)

  /**
   * Classification, tried in order: "</" starts a closing tag; a '/' before
   * the last character makes a self-closing tag, even without a '<'; a '<'
   * starts an opening tag; anything else is content. The self-closing test
   * indexes two before the end, which is only done for texts of at least two
   * characters here.
   */
  function Classify(s: string): Classified
  {
    if |s| >= 2 && s[0] == '<' && s[1] == '/' then Classified(ClosingElement, Substr(s, 2, |s| - 1 - 2))
    else if |s| >= 2 && s[|s| - 2] == '/' then Classified(SelfclosingElement, Substr(s, 1, |s| - 1 - 1 - 1))
    else if |s| >= 1 && s[0] == '<' then Classified(OpeningElement, Substr(s, 1, |s| - 1 - 1))
    else Classified(Content, s)
  }

  /** The tag or content text of type `t` around `x`. */
  function Wrap(t: ElementType, x: string): string
  {
    match t
    case OpeningElement => "<" + x + ">"
    case ClosingElement => "</" + x + ">"
    case SelfclosingElement => "<" + x + "/>"
    case Content => x
  }

  /** The texts `Wrap` can produce unambiguously. */
  predicate Unambiguous(t: ElementType, x: string)
  {
    match t
    case OpeningElement => x == [] || (x[0] != '/' && x[|x| - 1] != '/')
    case ClosingElement => true
    case SelfclosingElement => x != [] && x[0] != '/'
    case Content => !(|x| >= 2 && x[|x| - 2] == '/') && (x == [] || x[0] != '<')
  }

  /** Classifying a wrapped text gives back its type and the text. */
  lemma ClassifyUnwraps(t: ElementType, x: string)
    requires Unambiguous(t, x)
    ensures Classify(Wrap(t, x)) == Classified(t, x)
  {
    var s := Wrap(t, x);
    match t
    case OpeningElement =>
      assert s[1..|s| - 1] == x;
    case ClosingElement =>
      assert s[2..|s| - 1] == x;
    case SelfclosingElement =>
      assert s[1..|s| - 2] == x;
    case Content =>
  }

  /** The element name: for tags the longest prefix of name characters, for content the whole text. */
  function ElementName(c: Classified): (name: string)
    ensures c.elementType == Content ==> name == c.text
    ensures c.elementType != Content ==>
      && |name| <= |c.text| && name == c.text[..|name|]
      && (forall k | 0 <= k < |name| :: IsNameChar(name[k]))
      && (|name| == |c.text| || !IsNameChar(c.text[|name|]))
  {
    if c.elementType == Content then c.text else c.text[..Skip(c.text, 0, IsNameChar)]
  }

  /** What one pass of the attribute scan reads, and where the next pass starts. */
  datatype AttributePass = AttributePass(key: string, value: string, next: nat)

  /**
   * One pass of the attribute scan from `i`: past the current word, on to
   * the next key character, the key, on to the next '"', past it, and the
   * value up to the next '"', which is where the next pass starts.
   */
  function Pass(s: string, i: nat): (r: AttributePass)
    requires i < |s|
    ensures i < r.next <= |s| + 1
    ensures forall k | 0 <= k < |r.key| :: IsKeyChar(r.key[k])
    ensures forall k | 0 <= k < |r.value| :: r.value[k] != '"'
  {
    var a := Skip(s, i, IsNotSpaceChar);
    var b := Skip(s, a, IsNotKeyChar);
    var c := Skip(s, b, IsKeyChar);
    var d := Skip(s, c, IsNotQuote);
    var e := d + 1;
    var f := Skip(s, e, IsNotQuote);
    AttributePass(s[b..c], if e <= |s| then s[e..f] else [], f)
  }

  /** `std::map::insert`: a key already present keeps its value. */
  function AddAttr(m: map<string, string>, key: string, value: string): (r: map<string, string>)
    ensures r.Keys == m.Keys + {key}
    ensures forall k | k in m :: r[k] == m[k]
    ensures key !in m ==> r[key] == value
  {
    if key in m then m else m[key := value]
  }

  /** The attributes the scan from `i` adds to `m`: each pass with a key adds its pair. */
  function Attributes(s: string, i: nat, m: map<string, string>): map<string, string>
    requires i <= |s| + 1
    decreases |s| + 1 - i
  {
    if i >= |s| then m
    else
      var p := Pass(s, i);
      Attributes(s, p.next, if |p.key| > 0 then AddAttr(m, p.key, p.value) else m)
  }

  /** A key stays with the first value the scan gave it: later pairs with the same key are dropped. */
  lemma {:induction false} AttributesKeepFirst(s: string, i: nat, m: map<string, string>)
    requires i <= |s| + 1
    ensures var r := Attributes(s, i, m); forall k | k in m :: k in r && r[k] == m[k]
    decreases |s| + 1 - i
  {
    if i < |s| {
      var p := Pass(s, i);
      AttributesKeepFirst(s, p.next, if |p.key| > 0 then AddAttr(m, p.key, p.value) else m);
    }
  }

  /** Every attribute key is a non-empty run of key characters. */
  lemma {:induction false} AttributeKeys(s: string, i: nat, m: map<string, string>)
    requires i <= |s| + 1
    requires forall k | k in m :: k != [] && forall j | 0 <= j < |k| :: IsKeyChar(k[j])
    ensures forall k | k in Attributes(s, i, m) :: k != [] && forall j | 0 <= j < |k| :: IsKeyChar(k[j])
    decreases |s| + 1 - i
  {
    if i < |s| {
      var p := Pass(s, i);
      AttributeKeys(s, p.next, if |p.key| > 0 then AddAttr(m, p.key, p.value) else m);
    }
  }

  /** The element a token stands for: nothing when the stripped text is empty. */
  function ParseToken(token: string): Option<ElementData>
  {
    var c := Classify(TrimLeading(token));
    if c.text == [] then None
    else Some(ElementData(ElementName(c), c.elementType, Attributes(c.text, 0, map[])))
  }

  /** The elements of the tokens, in token order. */
  function ParseTokens(ts: seq<string>): seq<ElementData>
  {
    if ts == [] then []
    else
      ParseTokens(ts[..|ts| - 1])
      + match ParseToken(ts[|ts| - 1]) case None => [] case Some(e) => [e]
  }

  function ParseDocument(doc: string): seq<ElementData>
  {
    ParseTokens(Split(doc).tokens)
  }

  /** There are never more elements than tokens. */
  lemma {:induction false} ElementsAtMostTokens(ts: seq<string>)
    ensures |ParseTokens(ts)| <= |ts|
  {
    if ts != [] {
      ElementsAtMostTokens(ts[..|ts| - 1]);
    }
  }

  /** An opening tag `<name key="value">`. */
  function OpeningTag(name: string, key: string, value: string): string
  {
    "<" + name + " " + key + "=\"" + value + "\">"
  }

  /** A name of letters, a key of key characters, a value without quotes or angle brackets. */
  ghost predicate TagParts(name: string, key: string, value: string)
  {
    && name != [] && (forall k | 0 <= k < |name| :: IsAlpha(name[k] as int))
    && key != [] && (forall k | 0 <= k < |key| :: IsKeyChar(key[k]))
    && (forall k | 0 <= k < |value| :: value[k] != '"' && value[k] != '<' && value[k] != '>')
  }

  /** Where the parts of `name key="value"` lie in `s`. */
  ghost predicate PairLayout(s: string, name: string, key: string, value: string)
  {
    var ke := |name| + 1 + |key|;
    && |s| == ke + |value| + 3
    && s[|name|] == ' ' && s[ke] == '=' && s[ke + 1] == '"' && s[|s| - 1] == '"'
    && s[..|name|] == name && s[|name| + 1..ke] == key && s[ke + 2..|s| - 1] == value
  }

  lemma PairLayoutHolds(name: string, key: string, value: string)
    ensures PairLayout(name + " " + key + "=\"" + value + "\"", name, key, value)
  {
    var s := name + " " + key + "=\"" + value + "\"";
    var ke := |name| + 1 + |key|;
    assert s[..|name|] == name;
    assert s[|name| + 1..ke] == key;
    assert s[ke + 2..|s| - 1] == value;
  }

  /** The first pass over `name key="value"` reads the pair and stops at the closing quote. */
  lemma FirstPass(s: string, name: string, key: string, value: string)
    requires TagParts(name, key, value) && PairLayout(s, name, key, value)
    ensures Pass(s, 0) == AttributePass(key, value, |s| - 1)
  {
    var n, ke := |name|, |name| + 1 + |key|;
    PairStops(s, name, key, value);
    assert s[n + 1..ke] == key && s[ke + 2..|s| - 1] == value;
  }

  /** Where each skip of the first pass over `name key="value"` stops. */
  lemma PairStops(s: string, name: string, key: string, value: string)
    requires TagParts(name, key, value) && PairLayout(s, name, key, value)
    ensures var n, ke := |name|, |name| + 1 + |key|;
      && Skip(s, 0, IsNotSpaceChar) == n && Skip(s, n, IsNotKeyChar) == n + 1
      && Skip(s, n + 1, IsKeyChar) == ke && Skip(s, ke, IsNotQuote) == ke + 1
      && Skip(s, ke + 2, IsNotQuote) == |s| - 1
  {
    var n, ke := |name|, |name| + 1 + |key|;
    assert Skip(s, 0, IsNotSpaceChar) == n by {
      forall k | 0 <= k < n
        ensures IsNotSpaceChar(s[k])
      {
        assert s[k] == s[..n][k];
      }
    }
    assert Skip(s, n, IsNotKeyChar) == n + 1 by {
      assert s[n + 1] == s[n + 1..ke][0];
    }
    assert Skip(s, n + 1, IsKeyChar) == ke by {
      forall k | n + 1 <= k < ke
        ensures IsKeyChar(s[k])
      {
        assert s[k] == s[n + 1..ke][k - n - 1];
      }
    }
    assert Skip(s, ke, IsNotQuote) == ke + 1;
    assert Skip(s, ke + 2, IsNotQuote) == |s| - 1 by {
      forall k | ke + 2 <= k < |s| - 1
        ensures IsNotQuote(s[k])
      {
        assert s[k] == s[ke + 2..|s| - 1][k - ke - 2];
      }
    }
  }

  /** The attribute scan of `name key="value"` finds exactly the one pair. */
  lemma ScanOnePair(s: string, name: string, key: string, value: string)
    requires TagParts(name, key, value) && PairLayout(s, name, key, value)
    ensures Attributes(s, 0, map[]) == map[key := value]
  {
    FirstPass(s, name, key, value);
    var m := AddAttr(map[], key, value);
    assert Skip(s, |s| - 1, IsNotSpaceChar) == |s|;
    assert Pass(s, |s| - 1) == AttributePass([], [], |s| + 1);
    assert Attributes(s, |s| - 1, m) == m;
  }

  /** `<name key="value">` alone is one opening element named `name` with the one attribute. */
  lemma OpeningTagRoundTrip(name: string, key: string, value: string)
    requires TagParts(name, key, value)
    ensures ParseDocument(OpeningTag(name, key, value)) == [ElementData(name, OpeningElement, map[key := value])]
  {
    var inner := name + " " + key + "=\"" + value + "\"";
    var tag := OpeningTag(name, key, value);
    assert tag == Wrap(OpeningElement, inner);
    PairLayoutHolds(name, key, value);
    TagTokens(inner, tag, name, key, value);
    TagElement(inner, tag, name, key, value);
    EmptyTokenSkipped();
    TwoTokens(Split(tag).tokens, ElementData(name, OpeningElement, map[key := value]));
  }

  /** The empty text before a document's first '<' makes no element. */
  lemma EmptyTokenSkipped()
    ensures ParseToken([]) == None
  {
    assert TrimLeading([]) == [];
  }

  /** A document that is one tag is cut into the empty text before it and the tag. */
  lemma TagTokens(inner: string, tag: string, name: string, key: string, value: string)
    requires TagParts(name, key, value) && PairLayout(inner, name, key, value)
    requires tag == Wrap(OpeningElement, inner)
    ensures Split(tag).tokens == [[], tag]
  {
    forall j | 0 <= j < |inner|
      ensures inner[j] != '<' && inner[j] != '>'
    {
      var n, ke := |name|, |name| + 1 + |key|;
      if j < n {
        assert inner[j] == inner[..n][j];
      } else if n < j < ke {
        assert inner[j] == inner[n + 1..ke][j - n - 1];
      } else if ke + 2 <= j < |inner| - 1 {
        assert inner[j] == inner[ke + 2..|inner| - 1][j - ke - 2];
      }
    }
    assert Split("<") == Pieces([[]], "<") by {
      assert "<"[..0] == [];
    }
    SplitPlain("<", inner);
    assert tag[..|tag| - 1] == "<" + inner;
  }

  /** The tag is an opening element named `name` with the one attribute. */
  lemma TagElement(inner: string, tag: string, name: string, key: string, value: string)
    requires TagParts(name, key, value) && PairLayout(inner, name, key, value)
    requires tag == Wrap(OpeningElement, inner)
    ensures ParseToken(tag) == Some(ElementData(name, OpeningElement, map[key := value]))
  {
    assert TrimLeading(tag) == tag by {
      assert Skip(tag, 0, IsSpaceChar) == 0;
    }
    InnerParts(inner, name, key, value);
    ClassifyUnwraps(OpeningElement, inner);
    ScanOnePair(inner, name, key, value);
  }

  /** `name key="value"` can be wrapped as an opening tag, and its name is `name`. */
  lemma InnerParts(inner: string, name: string, key: string, value: string)
    requires TagParts(name, key, value) && PairLayout(inner, name, key, value)
    ensures Unambiguous(OpeningElement, inner)
    ensures ElementName(Classified(OpeningElement, inner)) == name
  {
    assert inner[0] == inner[..|name|][0];
    assert Skip(inner, 0, IsNameChar) == |name| by {
      forall k | 0 <= k < |name|
        ensures IsNameChar(inner[k])
      {
        assert inner[k] == inner[..|name|][k];
      }
    }
  }

  /** A token that makes no element followed by one that makes `e` give `e` alone. */
  lemma TwoTokens(ts: seq<string>, e: ElementData)
    requires |ts| == 2 && ParseToken(ts[0]) == None && ParseToken(ts[1]) == Some(e)
    ensures ParseTokens(ts) == [e]
  {
    var front := ts[..1];
    assert front[..0] == [];
    assert ParseTokens(front) == [];
  }

  // ---------------------------------------------------------------------
  // The objects.
  // ---------------------------------------------------------------------

  class XmlElement {
    var name: string
    var elementType: ElementType
    var attributes: map<string, string>

    function Data(): ElementData
      reads this
    {
      ElementData(name, elementType, attributes)
    }

    constructor (elementName: string, t: ElementType)
      ensures Data() == ElementData(elementName, t, map[])
    {
      name, elementType, attributes := elementName, t, map[];
    }

    /** The stored value of `key`, or the empty string when there is none. */
    function GetAttribute(key: string): (v: string)
      reads this
      ensures key in attributes ==> v == attributes[key]
      ensures key !in attributes ==> v == ""
    {
      if key in attributes then attributes[key] else ""
    }

    /** Adds the pair unless the key is already there. */
    method AddAttribute(key: string, value: string)
      modifies this
      ensures name == old(name) && elementType == old(elementType)
      ensures attributes == AddAttr(old(attributes), key, value)
    {
      if key !in attributes {
        attributes := attributes[key := value];
      }
    }
  }

  class XmlParser {
    var elements: seq<XmlElement>

    /** Splits the document into elements and keeps them in token order. */
    constructor (document: string)
      ensures |elements| == |ParseDocument(document)|
      ensures forall i | 0 <= i < |elements| :: elements[i].Data() == ParseDocument(document)[i]
    {
      var tokens := SplitDocument(document);
      var list: seq<XmlElement> := [];
      for n := 0 to |tokens|
        invariant |list| == |ParseTokens(tokens[..n])|
        invariant forall i | 0 <= i < |list| :: list[i].Data() == ParseTokens(tokens[..n])[i]
      {
        var e := ParseElement(tokens[n]);
        assert tokens[..n + 1][..n] == tokens[..n];
        if e != null {
          list := list + [e];
        }
      }
      assert tokens[..|tokens|] == tokens;
      elements := list;
    }

    function Size(): (n: nat)
      reads this
      ensures n == |elements|
    {
      |elements|
    }

    /** The first element whose name is `name`, or null when there is none. */
    method FindFirstElementWithName(name: string) returns (r: XmlElement?)
      ensures r == null <==> forall i | 0 <= i < |elements| :: elements[i].name != name
      ensures r != null ==>
        exists i | 0 <= i < |elements| ::
          r == elements[i] && elements[i].name == name && forall j | 0 <= j < i :: elements[j].name != name
    {
      for i := 0 to |elements|
        invariant forall j | 0 <= j < i :: elements[j].name != name
      {
        if elements[i].name == name {
          return elements[i];
        }
      }
      return null;
    }

    /** The tokenizer loop. */
    static method SplitDocument(doc: string) returns (tokens: seq<string>)
      ensures tokens == Split(doc).tokens
    {
      tokens := [];
      var current: string := [];
      for i := 0 to |doc|
        invariant Split(doc[..i]) == Pieces(tokens, current)
      {
        var c := doc[i];
        assert doc[..i + 1][..i] == doc[..i];
        match c {
          case '<' =>
            tokens := tokens + [current];
            current := ['<'];
          case '>' =>
            tokens := tokens + [current + ['>']];
            current := [];
          case _ =>
            current := current + [c];
        }
      }
      assert doc[..|doc|] == doc;
    }

    /** One token: strip leading whitespace, classify, skip an empty text, then the name and the attributes. */
    static method ParseElement(token: string) returns (e: XmlElement?)
      ensures e == null <==> ParseToken(token).None?
      ensures e != null ==> fresh(e) && e.Data() == ParseToken(token).value
    {
      var i := 0;
      while i < |token| && IsSpaceChar(token[i])
        invariant i <= |token| && Skip(token, i, IsSpaceChar) == Skip(token, 0, IsSpaceChar)
      {
        i := i + 1;
      }
      var c := Classify(token[i..]);
      if c.text == [] {
        return null;
      }
      var name: string;
      if c.elementType != Content {
        var j := 0;
        name := [];
        while j < |c.text| && IsNameChar(c.text[j])
          invariant j <= |c.text| && name == c.text[..j]
          invariant Skip(c.text, j, IsNameChar) == Skip(c.text, 0, IsNameChar)
        {
          name := name + [c.text[j]];
          j := j + 1;
        }
      } else {
        name := c.text;
      }
      e := new XmlElement(name, c.elementType);
      ScanAttributes(c.text, e);
    }

    /** The attribute scan over an element's text, adding each pair with a non-empty key. */
    static method ScanAttributes(s: string, e: XmlElement)
      modifies e
      ensures e.name == old(e.name) && e.elementType == old(e.elementType)
      ensures e.attributes == Attributes(s, 0, old(e.attributes))
    {
      var i: nat := 0;
      while i < |s|
        invariant i <= |s| + 1
        invariant e.name == old(e.name) && e.elementType == old(e.elementType)
        invariant Attributes(s, i, e.attributes) == Attributes(s, 0, old(e.attributes))
        decreases |s| + 1 - i
      {
        var key, value;
        key, value, i := ScanPass(s, i);
        if |key| > 0 {
          e.AddAttribute(key, value);
        }
      }
    }

    /** One pass of the attribute scan: the key, the value, and where the next pass starts. */
    static method ScanPass(s: string, start: nat) returns (key: string, value: string, i: nat)
      requires start < |s|
      ensures Pass(s, start) == AttributePass(key, value, i)
    {
      // Past the current word, then on to the key.
      i := SkipWhile(s, start, IsNotSpaceChar);
      i := SkipWhile(s, i, IsNotKeyChar);
      key, i := Gather(s, i, IsKeyChar);
      // On to the value, and past its opening quote.
      i := SkipWhile(s, i, IsNotQuote);
      i := i + 1;
      if i <= |s| {
        value, i := Gather(s, i, IsNotQuote);
      } else {
        value := [];
      }
    }

    /** A loop that moves past the characters satisfying `p`. */
    static method SkipWhile(s: string, start: nat, p: char -> bool) returns (i: nat)
      ensures i == Skip(s, start, p)
    {
      i := start;
      while i < |s| && p(s[i])
        invariant start <= i && Skip(s, i, p) == Skip(s, start, p)
        decreases |s| - i
      {
        i := i + 1;
      }
    }

    /** A loop that appends the characters satisfying `p` to a string while it moves past them. */
    static method Gather(s: string, start: nat, p: char -> bool) returns (run: string, i: nat)
      requires start <= |s|
      ensures i == Skip(s, start, p) && run == s[start..i]
    {
      run := [];
      i := start;
      while i < |s| && p(s[i])
        invariant start <= i <= |s| && run == s[start..i] && Skip(s, i, p) == Skip(s, start, p)
      {
        run := run + [s[i]];
        i := i + 1;
      }
    }
  }
}
