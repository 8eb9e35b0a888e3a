/** The SVG markup builders of src/svg_image.cpp: the SVG, G and Defs
    accumulators, the leaf element builders, and the LoadImageSVG and
    SaveImageSVG stubs. Every builder streams its tag, then each attribute
    as  name="value"  (numbers as operator<< writes an int, strings
    verbatim and unescaped), then "/>" or ">". */
module Svg {
  import opened Wrappers
  import opened Seqs
  import opened Images
  import opened Text

  datatype Attr = Attr(name: string, value: string)

  /** One attribute as streamed: a space, the name, '=', the value in
      double quotes. */
  function AttrText(a: Attr): string
  {
    [' '] + a.name + ['=', '"'] + a.value + ['"']
  }

  function AttrsText(attrs: seq<Attr>): string
  {
    if attrs == [] then [] else AttrText(attrs[0]) + AttrsText(attrs[1..])
  }

  /** A start tag: "<", the tag, its attributes, ">". */
  function OpenTag(tag: string, attrs: seq<Attr>): string
  {
    ['<'] + tag + AttrsText(attrs) + ['>']
  }

  /** A self-closing tag: "<", the tag, its attributes, "/>". */
  function EmptyTag(tag: string, attrs: seq<Attr>): string
  {
    ['<'] + tag + AttrsText(attrs) + ['/', '>']
  }

  function CloseTag(tag: string): string
  {
    ['<', '/'] + tag + ['>']
  }

  /** An element with text content: the start tag, the text verbatim, the
      end tag. */
  function Wrapped(tag: string, attrs: seq<Attr>, text: string): string
  {
    OpenTag(tag, attrs) + text + CloseTag(tag)
  }

  // ---------------------------------------------------------------------
  // Reading markup back: a reader of double-quoted attributes.

  /** No character of s is in banned. */
  ghost predicate Plain(s: string, banned: set<char>)
  {
    forall k :: 0 <= k < |s| ==> s[k] !in banned
  }

  /** The index of the first character of s in stop; |s| when none is. */
  function Find(s: string, stop: set<char>): (i: nat)
    ensures i <= |s|
    ensures forall k :: 0 <= k < i ==> s[k] !in stop
    ensures i < |s| ==> s[i] in stop
  {
    if s == [] || s[0] in stop then 0 else 1 + Find(s[1..], stop)
  }

  /** The attributes at the front of s, and what follows them: each is a
      space, a name up to '=', then a double-quoted value. */
  function ParseAttrs(s: string): (p: (seq<Attr>, string))
    decreases |s|, 1
  {
    if |s| > 0 && s[0] == ' ' then
      var body := s[1..];
      var i := Find(body, {'='});
      if i + 1 < |body| && body[i + 1] == '"' then ParseValue(s, body[..i], body[i + 2..])
      else ([], s)
    else ([], s)
  }

  /** The value after name=" up to the closing quote, then the attributes
      after it; s, the text from the attribute's space on, is returned
      whole when the quote is never closed. */
  function ParseValue(s: string, name: string, after: string): (p: (seq<Attr>, string))
    decreases |after|, 0
  {
    var j := Find(after, {'"'});
    if j < |after| then
      var more := ParseAttrs(after[j + 1..]);
      ([Attr(name, after[..j])] + more.0, more.1)
    else ([], s)
  }

  /** A tag as read back: its name, attributes, and whether it closed
      with "/>". */
  datatype Tag = Tag(name: string, attrs: seq<Attr>, selfClosing: bool)

  /** The tag at the front of s and what follows it; None when s does not
      start with a tag whose attributes are all double-quoted. */
  function ParseTag(s: string): Option<(Tag, string)>
  {
    if |s| > 0 && s[0] == '<' then
      var body := s[1..];
      var k := Find(body, {' ', '/', '>'});
      TagEnd(body[..k], ParseAttrs(body[k..]))
    else None
  }

  /** The end of a tag named name with attributes p.0: "/>" or ">" must
      follow them. */
  function TagEnd(name: string, p: (seq<Attr>, string)): Option<(Tag, string)>
  {
    var rest := p.1;
    if |rest| >= 2 && rest[0] == '/' && rest[1] == '>' then Some((Tag(name, p.0, true), rest[2..]))
    else if |rest| >= 1 && rest[0] == '>' then Some((Tag(name, p.0, false), rest[1..]))
    else None
  }

  /** Attributes a reader gets back: names without '=', values without
      '"' (the builders do not escape). */
  ghost predicate Readable(attrs: seq<Attr>)
  {
    forall i :: 0 <= i < |attrs| ==> Plain(attrs[i].name, {'='}) && Plain(attrs[i].value, {'"'})
  }

  /** A tag name a reader gets back. */
  ghost predicate TagName(tag: string)
  {
    Plain(tag, {' ', '/', '>'})
  }

  /** Find stops exactly where the first stop character was written. */
  lemma {:induction false} FindAt(a: string, b: string, stop: set<char>)
    requires Plain(a, stop) && |b| > 0 && b[0] in stop
    ensures Find(a + b, stop) == |a|
  {
    if a == [] {
      assert a + b == b;
    } else {
      assert (a + b)[0] == a[0];
      assert (a + b)[1..] == a[1..] + b;
      FindAt(a[1..], b, stop);
    }
  }

  /** The reader takes the name up to '=' and goes on with the value. */
  lemma ParseAttrsAt(name: string, t: string)
    requires Plain(name, {'='}) && |t| >= 2 && t[0] == '=' && t[1] == '"'
    ensures ParseAttrs([' '] + name + t) == ParseValue([' '] + name + t, name, t[2..])
  {
    var body := name + t;
    assert ([' '] + name + t)[1..] == body;
    FindAt(name, t, {'='});
    assert body[..|name|] == name;
    assert body[|name| + 2..] == t[2..];
  }

  /** The reader takes the value up to the closing quote and goes on with
      what follows it. */
  lemma ParseValueAt(s: string, name: string, value: string, tail: string)
    requires Plain(value, {'"'})
    ensures ParseValue(s, name, value + ['"'] + tail)
      == ([Attr(name, value)] + ParseAttrs(tail).0, ParseAttrs(tail).1)
  {
    var after := value + (['"'] + tail);
    assert value + ['"'] + tail == after;
    FindAt(value, ['"'] + tail, {'"'});
    assert after[..|value|] == value;
    assert after[|value| + 1..] == tail;
  }

  /** One streamed attribute in front of tail reads back as itself, the
      reader going on with tail. */
  lemma ParseAttrsStep(a: Attr, tail: string)
    requires Plain(a.name, {'='}) && Plain(a.value, {'"'})
    ensures ParseAttrs(AttrText(a) + tail) == ([a] + ParseAttrs(tail).0, ParseAttrs(tail).1)
  {
    var t := ['=', '"'] + a.value + ['"'] + tail;
    assert AttrText(a) + tail == [' '] + a.name + t;
    ParseAttrsAt(a.name, t);
    assert t[2..] == a.value + ['"'] + tail;
    ParseValueAt(AttrText(a) + tail, a.name, a.value, tail);
  }

  lemma ReadableTail(attrs: seq<Attr>)
    requires Readable(attrs) && attrs != []
    ensures Plain(attrs[0].name, {'='}) && Plain(attrs[0].value, {'"'})
    ensures Readable(attrs[1..])
  {
    forall i | 0 <= i < |attrs[1..]|
      ensures Plain(attrs[1..][i].name, {'='}) && Plain(attrs[1..][i].value, {'"'})
    {
      assert attrs[1..][i] == attrs[i + 1];
    }
  }

  lemma AttrsTextStep(attrs: seq<Attr>, rest: string)
    requires attrs != []
    ensures AttrsText(attrs) + rest == AttrText(attrs[0]) + (AttrsText(attrs[1..]) + rest)
  {
  }

  /** Streamed attributes read back as themselves, whatever follows them
      (unless it starts with a space). */
  lemma {:induction false} AttrsReadBack(attrs: seq<Attr>, rest: string)
    requires Readable(attrs)
    requires rest == [] || rest[0] != ' '
    ensures ParseAttrs(AttrsText(attrs) + rest) == (attrs, rest)
  {
    if attrs == [] {
      assert AttrsText(attrs) + rest == rest;
    } else {
      ReadableTail(attrs);
      AttrsReadBack(attrs[1..], rest);
      AttrsTextStep(attrs, rest);
      ParseAttrsStep(attrs[0], AttrsText(attrs[1..]) + rest);
      assert [attrs[0]] + attrs[1..] == attrs;
    }
  }

  /** The reader takes the tag name up to the first space, '/' or '>'. */
  lemma ParseTagAt(tag: string, t: string)
    requires TagName(tag) && |t| > 0 && t[0] in {' ', '/', '>'}
    ensures ParseTag(['<'] + tag + t) == TagEnd(tag, ParseAttrs(t))
  {
    var body := tag + t;
    assert (['<'] + tag + t)[1..] == body;
    FindAt(tag, t, {' ', '/', '>'});
    assert body[..|tag|] == tag;
    assert body[|tag|..] == t;
  }

  /** A streamed self-closing tag reads back as its name and attributes. */
  lemma EmptyTagReadsBack(tag: string, attrs: seq<Attr>, rest: string)
    requires TagName(tag) && Readable(attrs)
    ensures ParseTag(EmptyTag(tag, attrs) + rest) == Some((Tag(tag, attrs, true), rest))
  {
    var close := ['/', '>'] + rest;
    var t := AttrsText(attrs) + close;
    assert EmptyTag(tag, attrs) + rest == ['<'] + tag + t;
    assert t[0] in {' ', '/', '>'} by {
      if attrs == [] {
        assert t == close;
      }
    }
    ParseTagAt(tag, t);
    AttrsReadBack(attrs, close);
    assert close[2..] == rest;
  }

  /** A streamed start tag reads back as its name and attributes, followed
      by whatever was written after it. */
  lemma OpenTagReadsBack(tag: string, attrs: seq<Attr>, rest: string)
    requires TagName(tag) && Readable(attrs)
    ensures ParseTag(OpenTag(tag, attrs) + rest) == Some((Tag(tag, attrs, false), rest))
  {
    var close := ['>'] + rest;
    var t := AttrsText(attrs) + close;
    assert OpenTag(tag, attrs) + rest == ['<'] + tag + t;
    assert t[0] in {' ', '/', '>'} by {
      if attrs == [] {
        assert t == close;
      }
    }
    ParseTagAt(tag, t);
    AttrsReadBack(attrs, close);
    assert close[1..] == rest;
  }

  /** The text of an element with content follows its start tag verbatim,
      then comes the end tag: whatever the text holds. */
  lemma WrappedReadsBack(tag: string, attrs: seq<Attr>, text: string)
    requires TagName(tag) && Readable(attrs)
    ensures ParseTag(Wrapped(tag, attrs, text)) == Some((Tag(tag, attrs, false), text + CloseTag(tag)))
  {
    assert Wrapped(tag, attrs, text) == OpenTag(tag, attrs) + (text + CloseTag(tag));
    OpenTagReadsBack(tag, attrs, text + CloseTag(tag));
  }

  /** operator<< on an int writes only digits and '-'. */
  lemma DecimalPlain(n: int)
    ensures Plain(Decimal(n), {'"', '='})
  {
    if n < 0 {
      assert Decimal(n) == "-" + NatDecimal(-n);
    }
  }

  // ---------------------------------------------------------------------
  // Attribute values as the builders stream them.

  /** What a builder streams into an attribute: an int or a string. */
  datatype Value = Num(n: int) | Str(s: string)

  /** A value as operator<< writes it: an int in decimal, a string verbatim. */
  function ValueText(v: Value): string
  {
    match v
    case Num(n) => Decimal(n)
    case Str(s) => s
  }

  /** The attributes names[i]="values[i]", in order. */
  function Attrs(names: seq<string>, values: seq<Value>): (attrs: seq<Attr>)
    requires |names| == |values|
    ensures |attrs| == |names|
  {
    seq(|names|, i requires 0 <= i < |names| => Attr(names[i], ValueText(values[i])))
  }

  /** An attribute read back gives the value streamed: its name, the int
      its text parses to, or the string itself. */
  ghost predicate ReadsAs(a: Attr, name: string, v: Value)
  {
    a.name == name
    && match v
       case Num(n) => ParseInt(a.value) == Some(n)
       case Str(s) => a.value == s
  }

  /** Attributes read back one by one as names and values, in order. */
  ghost predicate ReadsAll(attrs: seq<Attr>, names: seq<string>, values: seq<Value>)
  {
    |attrs| == |names| == |values|
    && forall i :: 0 <= i < |attrs| ==> ReadsAs(attrs[i], names[i], values[i])
  }

  /** Attribute names without '='. */
  ghost predicate AttrNames(names: seq<string>)
  {
    forall i :: 0 <= i < |names| ==> Plain(names[i], {'='})
  }

  /** String values without '"' (the builders do not escape them). */
  ghost predicate Quotable(values: seq<Value>)
  {
    forall i :: 0 <= i < |values| ==> values[i].Str? ==> Plain(values[i].s, {'"'})
  }

  /** Streamed names and values are readable and read back as themselves. */
  lemma AttrsReadable(names: seq<string>, values: seq<Value>)
    requires |names| == |values| && AttrNames(names) && Quotable(values)
    ensures Readable(Attrs(names, values)) && ReadsAll(Attrs(names, values), names, values)
  {
    var attrs := Attrs(names, values);
    forall i | 0 <= i < |attrs|
      ensures Plain(attrs[i].name, {'='}) && Plain(attrs[i].value, {'"'})
      ensures ReadsAs(attrs[i], names[i], values[i])
    {
      if values[i].Num? {
        DecimalPlain(values[i].n);
        DecimalRoundTrip(values[i].n);
      }
    }
  }

  /** A self-closing element read back: its tag, and its attributes as the
      names and values streamed. */
  lemma LeafReadsBack(tag: string, names: seq<string>, values: seq<Value>)
    requires TagName(tag) && |names| == |values| && AttrNames(names) && Quotable(values)
    ensures var p := ParseTag(EmptyTag(tag, Attrs(names, values)));
      p.Some? && p.value.1 == [] && p.value.0.name == tag && p.value.0.selfClosing
      && ReadsAll(p.value.0.attrs, names, values)
  {
    var attrs := Attrs(names, values);
    AttrsReadable(names, values);
    EmptyTagReadsBack(tag, attrs, []);
    assert EmptyTag(tag, attrs) + [] == EmptyTag(tag, attrs);
  }

  /** An element with text content read back: its tag, its attributes as
      streamed, then the text and the end tag. */
  lemma ContentReadsBack(tag: string, names: seq<string>, values: seq<Value>, text: string)
    requires TagName(tag) && |names| == |values| && AttrNames(names) && Quotable(values)
    ensures var p := ParseTag(Wrapped(tag, Attrs(names, values), text));
      p.Some? && p.value.1 == text + CloseTag(tag) && p.value.0.name == tag && !p.value.0.selfClosing
      && ReadsAll(p.value.0.attrs, names, values)
  {
    AttrsReadable(names, values);
    WrappedReadsBack(tag, Attrs(names, values), text);
  }

  // ---------------------------------------------------------------------
  // The leaf builders: each streams its element once, at construction,
  // and GetElement returns it.

  const RECT_ATTRS: seq<string> := ["x", "y", "width", "height", "fill", "stroke", "stroke-width"]

  /** Rect. */
  function Rect(x: int, y: int, width: int, height: int, fill: string, stroke: string,
                strokeWidth: int): string
  {
    EmptyTag("rect", Attrs(RECT_ATTRS, [Num(x), Num(y), Num(width), Num(height), Str(fill), Str(stroke), Num(strokeWidth)]))
  }

  /** A rect reads back as a self-closing rect with x, y, width, height,
      fill, stroke and stroke-width in that order, each the value given. */
  lemma RectReadsBack(x: int, y: int, width: int, height: int, fill: string, stroke: string,
                      strokeWidth: int)
    requires Plain(fill, {'"'}) && Plain(stroke, {'"'})
    ensures var p := ParseTag(Rect(x, y, width, height, fill, stroke, strokeWidth));
      p.Some? && p.value.1 == [] && p.value.0.name == "rect" && p.value.0.selfClosing
      && ReadsAll(p.value.0.attrs, RECT_ATTRS,
                  [Num(x), Num(y), Num(width), Num(height), Str(fill), Str(stroke), Num(strokeWidth)])
  {
    var values := [Num(x), Num(y), Num(width), Num(height), Str(fill), Str(stroke), Num(strokeWidth)];
    assert TagName("rect");
    assert AttrNames(RECT_ATTRS);
    assert Quotable(values);
    LeafReadsBack("rect", RECT_ATTRS, values);
  }

  const CIRCLE_ATTRS: seq<string> := ["cx", "cy", "r", "fill", "stroke", "stroke-width"]

  /** Circle. */
  function Circle(cx: int, cy: int, r: int, fill: string, stroke: string, strokeWidth: int): string
  {
    EmptyTag("circle", Attrs(CIRCLE_ATTRS, [Num(cx), Num(cy), Num(r), Str(fill), Str(stroke), Num(strokeWidth)]))
  }

  /** A circle reads back as a self-closing circle with cx, cy, r, fill, stroke and stroke-width in that
      order, each the value given. */
  lemma CircleReadsBack(cx: int, cy: int, r: int, fill: string, stroke: string, strokeWidth: int)
    requires Plain(fill, {'"'}) && Plain(stroke, {'"'})
    ensures var p := ParseTag(Circle(cx, cy, r, fill, stroke, strokeWidth));
      p.Some? && p.value.1 == [] && p.value.0.name == "circle" && p.value.0.selfClosing
      && ReadsAll(p.value.0.attrs, CIRCLE_ATTRS, [Num(cx), Num(cy), Num(r), Str(fill), Str(stroke), Num(strokeWidth)])
  {
    var values := [Num(cx), Num(cy), Num(r), Str(fill), Str(stroke), Num(strokeWidth)];
    assert TagName("circle");
    assert AttrNames(CIRCLE_ATTRS);
    assert Quotable(values);
    LeafReadsBack("circle", CIRCLE_ATTRS, values);
  }

  const ELLIPSE_ATTRS: seq<string> := ["cx", "cy", "rx", "ry", "fill", "stroke", "stroke-width"]

  /** Ellipse. */
  function Ellipse(cx: int, cy: int, rx: int, ry: int, fill: string, stroke: string, strokeWidth: int): string
  {
    EmptyTag("ellipse", Attrs(ELLIPSE_ATTRS, [Num(cx), Num(cy), Num(rx), Num(ry), Str(fill), Str(stroke), Num(strokeWidth)]))
  }

  /** A ellipse reads back as a self-closing ellipse with cx, cy, rx, ry, fill, stroke and stroke-width in that
      order, each the value given. */
  lemma EllipseReadsBack(cx: int, cy: int, rx: int, ry: int, fill: string, stroke: string, strokeWidth: int)
    requires Plain(fill, {'"'}) && Plain(stroke, {'"'})
    ensures var p := ParseTag(Ellipse(cx, cy, rx, ry, fill, stroke, strokeWidth));
      p.Some? && p.value.1 == [] && p.value.0.name == "ellipse" && p.value.0.selfClosing
      && ReadsAll(p.value.0.attrs, ELLIPSE_ATTRS, [Num(cx), Num(cy), Num(rx), Num(ry), Str(fill), Str(stroke), Num(strokeWidth)])
  {
    var values := [Num(cx), Num(cy), Num(rx), Num(ry), Str(fill), Str(stroke), Num(strokeWidth)];
    assert TagName("ellipse");
    assert AttrNames(ELLIPSE_ATTRS);
    assert Quotable(values);
    LeafReadsBack("ellipse", ELLIPSE_ATTRS, values);
  }

  const LINE_ATTRS: seq<string> := ["x1", "y1", "x2", "y2", "stroke", "stroke-width"]

  /** Line. */
  function Line(x1: int, y1: int, x2: int, y2: int, stroke: string, strokeWidth: int): string
  {
    EmptyTag("line", Attrs(LINE_ATTRS, [Num(x1), Num(y1), Num(x2), Num(y2), Str(stroke), Num(strokeWidth)]))
  }

  /** A line reads back as a self-closing line with x1, y1, x2, y2, stroke and stroke-width in that
      order, each the value given. */
  lemma LineReadsBack(x1: int, y1: int, x2: int, y2: int, stroke: string, strokeWidth: int)
    requires Plain(stroke, {'"'})
    ensures var p := ParseTag(Line(x1, y1, x2, y2, stroke, strokeWidth));
      p.Some? && p.value.1 == [] && p.value.0.name == "line" && p.value.0.selfClosing
      && ReadsAll(p.value.0.attrs, LINE_ATTRS, [Num(x1), Num(y1), Num(x2), Num(y2), Str(stroke), Num(strokeWidth)])
  {
    var values := [Num(x1), Num(y1), Num(x2), Num(y2), Str(stroke), Num(strokeWidth)];
    assert TagName("line");
    assert AttrNames(LINE_ATTRS);
    assert Quotable(values);
    LeafReadsBack("line", LINE_ATTRS, values);
  }

  const POLYLINE_ATTRS: seq<string> := ["points", "fill", "stroke", "stroke-width"]

  /** Polyline. */
  function Polyline(points: string, fill: string, stroke: string, strokeWidth: int): string
  {
    EmptyTag("polyline", Attrs(POLYLINE_ATTRS, [Str(points), Str(fill), Str(stroke), Num(strokeWidth)]))
  }

  /** A polyline reads back as a self-closing polyline with points, fill, stroke and stroke-width in that
      order, each the value given. */
  lemma PolylineReadsBack(points: string, fill: string, stroke: string, strokeWidth: int)
    requires Plain(points, {'"'}) && Plain(fill, {'"'}) && Plain(stroke, {'"'})
    ensures var p := ParseTag(Polyline(points, fill, stroke, strokeWidth));
      p.Some? && p.value.1 == [] && p.value.0.name == "polyline" && p.value.0.selfClosing
      && ReadsAll(p.value.0.attrs, POLYLINE_ATTRS, [Str(points), Str(fill), Str(stroke), Num(strokeWidth)])
  {
    var values := [Str(points), Str(fill), Str(stroke), Num(strokeWidth)];
    assert TagName("polyline");
    assert AttrNames(POLYLINE_ATTRS);
    assert Quotable(values);
    LeafReadsBack("polyline", POLYLINE_ATTRS, values);
  }

  const POLYGON_ATTRS: seq<string> := ["points", "fill", "stroke", "stroke-width"]

  /** Polygon. */
  function Polygon(points: string, fill: string, stroke: string, strokeWidth: int): string
  {
    EmptyTag("polygon", Attrs(POLYGON_ATTRS, [Str(points), Str(fill), Str(stroke), Num(strokeWidth)]))
  }

  /** A polygon reads back as a self-closing polygon with points, fill, stroke and stroke-width in that
      order, each the value given. */
  lemma PolygonReadsBack(points: string, fill: string, stroke: string, strokeWidth: int)
    requires Plain(points, {'"'}) && Plain(fill, {'"'}) && Plain(stroke, {'"'})
    ensures var p := ParseTag(Polygon(points, fill, stroke, strokeWidth));
      p.Some? && p.value.1 == [] && p.value.0.name == "polygon" && p.value.0.selfClosing
      && ReadsAll(p.value.0.attrs, POLYGON_ATTRS, [Str(points), Str(fill), Str(stroke), Num(strokeWidth)])
  {
    var values := [Str(points), Str(fill), Str(stroke), Num(strokeWidth)];
    assert TagName("polygon");
    assert AttrNames(POLYGON_ATTRS);
    assert Quotable(values);
    LeafReadsBack("polygon", POLYGON_ATTRS, values);
  }

  const PATH_ATTRS: seq<string> := ["d", "fill", "stroke", "stroke-width"]

  /** PathSvg. */
  function PathSvg(d: string, fill: string, stroke: string, strokeWidth: int): string
  {
    EmptyTag("path", Attrs(PATH_ATTRS, [Str(d), Str(fill), Str(stroke), Num(strokeWidth)]))
  }

  /** A path reads back as a self-closing path with d, fill, stroke and stroke-width in that
      order, each the value given. */
  lemma PathSvgReadsBack(d: string, fill: string, stroke: string, strokeWidth: int)
    requires Plain(d, {'"'}) && Plain(fill, {'"'}) && Plain(stroke, {'"'})
    ensures var p := ParseTag(PathSvg(d, fill, stroke, strokeWidth));
      p.Some? && p.value.1 == [] && p.value.0.name == "path" && p.value.0.selfClosing
      && ReadsAll(p.value.0.attrs, PATH_ATTRS, [Str(d), Str(fill), Str(stroke), Num(strokeWidth)])
  {
    var values := [Str(d), Str(fill), Str(stroke), Num(strokeWidth)];
    assert TagName("path");
    assert AttrNames(PATH_ATTRS);
    assert Quotable(values);
    LeafReadsBack("path", PATH_ATTRS, values);
  }

  const USE_ATTRS: seq<string> := ["xlink:href", "x", "y"]

  /** Use. */
  function Use(href: string, x: int, y: int): string
  {
    EmptyTag("use", Attrs(USE_ATTRS, [Str(href), Num(x), Num(y)]))
  }

  /** A use reads back as a self-closing use with xlink:href, x and y in that
      order, each the value given. */
  lemma UseReadsBack(href: string, x: int, y: int)
    requires Plain(href, {'"'})
    ensures var p := ParseTag(Use(href, x, y));
      p.Some? && p.value.1 == [] && p.value.0.name == "use" && p.value.0.selfClosing
      && ReadsAll(p.value.0.attrs, USE_ATTRS, [Str(href), Num(x), Num(y)])
  {
    var values := [Str(href), Num(x), Num(y)];
    assert TagName("use");
    assert AttrNames(USE_ATTRS);
    assert Quotable(values);
    LeafReadsBack("use", USE_ATTRS, values);
  }

  const TEXT_ATTRS: seq<string> := ["x", "y", "font-family", "font-size", "fill"]

  /** Text (the class Text): the attributes, then the text verbatim as content. */
  function TextElement(x: int, y: int, text: string, fontFamily: string, fontSize: int, fill: string): string
  {
    Wrapped("text", Attrs(TEXT_ATTRS, [Num(x), Num(y), Str(fontFamily), Num(fontSize), Str(fill)]), text)
  }

  /** A text element reads back as a text start tag with x, y, font-family,
      font-size and fill in that order, each the value given, followed by
      the text itself and the end tag, whatever the text holds. */
  lemma TextReadsBack(x: int, y: int, text: string, fontFamily: string, fontSize: int, fill: string)
    requires Plain(fontFamily, {'"'}) && Plain(fill, {'"'})
    ensures var p := ParseTag(TextElement(x, y, text, fontFamily, fontSize, fill));
      p.Some? && p.value.1 == text + "</text>" && p.value.0.name == "text" && !p.value.0.selfClosing
      && ReadsAll(p.value.0.attrs, TEXT_ATTRS, [Num(x), Num(y), Str(fontFamily), Num(fontSize), Str(fill)])
  {
    var values := [Num(x), Num(y), Str(fontFamily), Num(fontSize), Str(fill)];
    assert TagName("text");
    assert AttrNames(TEXT_ATTRS);
    assert Quotable(values);
    ContentReadsBack("text", TEXT_ATTRS, values, text);
  }

  /** Style: the CSS verbatim inside style tags. */
  function Style(css: string): string
  {
    Wrapped("style", [], css)
  }

  /** Title: the title verbatim inside title tags. */
  function Title(title: string): string
  {
    Wrapped("title", [], title)
  }

  /** Desc: the description verbatim inside desc tags. */
  function Desc(description: string): string
  {
    Wrapped("desc", [], description)
  }

  /** A style element reads back as a bare style start tag, then the CSS
      as given and the end tag. */
  lemma StyleReadsBack(css: string)
    ensures ParseTag(Style(css)) == Some((Tag("style", [], false), css + "</style>"))
  {
    assert TagName("style");
    assert CloseTag("style") == "</style>";
    WrappedReadsBack("style", [], css);
  }

  /** A title element reads back as a bare title start tag, then the title
      as given and the end tag. */
  lemma TitleReadsBack(title: string)
    ensures ParseTag(Title(title)) == Some((Tag("title", [], false), title + "</title>"))
  {
    assert TagName("title");
    assert CloseTag("title") == "</title>";
    WrappedReadsBack("title", [], title);
  }

  /** A desc element reads back as a bare desc start tag, then the
      description as given and the end tag. */
  lemma DescReadsBack(description: string)
    ensures ParseTag(Desc(description)) == Some((Tag("desc", [], false), description + "</desc>"))
  {
    assert TagName("desc");
    assert CloseTag("desc") == "</desc>";
    WrappedReadsBack("desc", [], description);
  }

  // ---------------------------------------------------------------------
  // The accumulators: SVG, G and Defs keep the markup written so far in a
  // string and append each child element to it.

  /** What the SVG constructor streams after the height. */
  const ROOT_TAIL: string := " viewBox = \"0 0 100 100\" xmlns = \"http://www.w3.org/2000/svg\">"

  /** The SVG start tag as written: width and height follow " = " bare,
      without quotes. */
  function RootTag(width: int, height: int): string
  {
    "<svg width = " + Decimal(width) + " height = " + Decimal(height) + ROOT_TAIL
  }

  /** The root's size is written bare: right after "<svg width = " come
      the width's digits, which read back as the width, with no opening
      quote; then " height = " and the height's digits, likewise. */
  lemma RootSizeBare(width: int, height: int)
    ensures var r, w, h := RootTag(width, height), Decimal(width), Decimal(height);
      |"<svg width = "| + |w| + |" height = "| + |h| < |r|
      && r[..13] == "<svg width = " && r[13] != '"' && ParseInt(r[13..13 + |w|]) == Some(width)
      && r[13 + |w|..23 + |w|] == " height = " && r[23 + |w|] != '"'
      && ParseInt(r[23 + |w|..23 + |w| + |h|]) == Some(height)
  {
    var r, w, h := RootTag(width, height), Decimal(width), Decimal(height);
    var head, mid := "<svg width = ", " height = ";
    assert r == head + w + mid + h + ROOT_TAIL;
    assert |head| == 13 && |mid| == 10;
    DecimalPlain(width);
    DecimalPlain(height);
    assert r[..13] == head;
    assert r[13] == w[0];
    assert r[13..13 + |w|] == w;
    assert r[13 + |w|..23 + |w|] == mid;
    assert r[23 + |w|] == h[0];
    assert r[23 + |w|..23 + |w| + |h|] == h;
    DecimalRoundTrip(width);
    DecimalRoundTrip(height);
  }

  /** A whole document: the root start tag, the children in the order they
      were added, the end tag. */
  function DocumentMarkup(width: int, height: int, children: seq<string>): string
  {
    RootTag(width, height) + Concat(children) + "</svg>"
  }

  /** A whole g element: the start tag with its transform, the children in
      order, the end tag. */
  function GroupMarkup(transform: string, children: seq<string>): string
  {
    OpenTag("g", [Attr("transform", transform)]) + Concat(children) + CloseTag("g")
  }

  /** A whole defs element: the bare start tag, the children in order, the
      end tag. */
  function DefsMarkup(children: seq<string>): string
  {
    OpenTag("defs", []) + Concat(children) + CloseTag("defs")
  }

  /** Appending one more child extends the markup written so far by it. */
  lemma ConcatOne(children: seq<string>, child: string)
    ensures Concat(children + [child]) == Concat(children) + child
  {
    ConcatAppend(children, [child]);
    assert [child][1..] == [];
  }

  /** A g element reads back as a g start tag carrying its transform,
      followed by its children's markup in order and the end tag. */
  lemma GroupReadsBack(transform: string, children: seq<string>)
    requires Plain(transform, {'"'})
    ensures ParseTag(GroupMarkup(transform, children))
      == Some((Tag("g", [Attr("transform", transform)], false), Concat(children) + "</g>"))
  {
    var attrs := [Attr("transform", transform)];
    assert TagName("g");
    assert Readable(attrs) by {
      assert Plain("transform", {'='});
    }
    assert GroupMarkup(transform, children) == OpenTag("g", attrs) + (Concat(children) + CloseTag("g"));
    OpenTagReadsBack("g", attrs, Concat(children) + CloseTag("g"));
    assert CloseTag("g") == "</g>";
  }

  /** A defs element reads back as a bare defs start tag, followed by its
      children's markup in order and the end tag. */
  lemma DefsReadsBack(children: seq<string>)
    ensures ParseTag(DefsMarkup(children)) == Some((Tag("defs", [], false), Concat(children) + "</defs>"))
  {
    var rest := Concat(children) + "</defs>";
    assert CloseTag("defs") == "</defs>";
    assert DefsMarkup(children) == OpenTag("defs", []) + rest;
    assert TagName("defs");
    OpenTagReadsBack("defs", [], rest);
  }

  /** The SVG class: the root start tag, then every element added. */
  class SvgDocument {
    var element: string
    ghost const width: int
    ghost const height: int
    ghost var children: seq<string>

    ghost predicate Valid()
      reads this
    {
      element == RootTag(width, height) + Concat(children)
    }

    constructor(width: int, height: int)
      ensures Valid() && this.width == width && this.height == height && children == []
    {
      element := RootTag(width, height);
      this.width := width;
      this.height := height;
      children := [];
    }

    method AddElement(e: string)
      requires Valid()
      modifies this
      ensures Valid() && children == old(children) + [e]
    {
      ConcatOne(children, e);
      assert element + e == RootTag(width, height) + (Concat(children) + e);
      element := element + e;
      children := children + [e];
    }

    /** The document: everything added, in order, closed by the end tag. */
    function GetContent(): (content: string)
      requires Valid()
      reads this
      ensures content == DocumentMarkup(width, height, children)
    {
      element + "</svg>"
    }
  }

  /** The G class: a g start tag with its transform, then every child added. */
  class Group {
    var element: string
    ghost const transform: string
    ghost var children: seq<string>

    ghost predicate Valid()
      reads this
    {
      element == OpenTag("g", [Attr("transform", transform)]) + Concat(children)
    }

    constructor(transform: string)
      ensures Valid() && this.transform == transform && children == []
    {
      element := OpenTag("g", [Attr("transform", transform)]);
      this.transform := transform;
      children := [];
    }

    method AddElement(childElement: string)
      requires Valid()
      modifies this
      ensures Valid() && children == old(children) + [childElement]
    {
      ConcatOne(children, childElement);
      assert element + childElement == OpenTag("g", [Attr("transform", transform)]) + (Concat(children) + childElement);
      element := element + childElement;
      children := children + [childElement];
    }

    /** The group: every child added, in order, closed by the end tag. */
    function GetElement(): (e: string)
      requires Valid()
      reads this
      ensures e == GroupMarkup(transform, children)
    {
      element + "</g>"
    }
  }

  /** The Defs class: a defs start tag, then every child added. */
  class Defs {
    var element: string
    ghost var children: seq<string>

    ghost predicate Valid()
      reads this
    {
      element == OpenTag("defs", []) + Concat(children)
    }

    constructor()
      ensures Valid() && children == []
    {
      element := "<defs>";
      children := [];
      assert OpenTag("defs", []) == "<defs>";
    }

    method AddElement(childElement: string)
      requires Valid()
      modifies this
      ensures Valid() && children == old(children) + [childElement]
    {
      ConcatOne(children, childElement);
      assert element + childElement == OpenTag("defs", []) + (Concat(children) + childElement);
      element := element + childElement;
      children := children + [childElement];
    }

    /** The definitions: every child added, in order, closed by the end tag. */
    function GetElement(): (e: string)
      requires Valid()
      reads this
      ensures e == DefsMarkup(children)
    {
      element + "</defs>"
    }
  }

  // ---------------------------------------------------------------------
  // SvgImage: neither direction is implemented.

  /** LoadImageSVG: a default-constructed Image, whatever the file. */
  function LoadImageSVG(path: string): (r: Raster)
    ensures WellFormed(r) && !Truthy(r)
  {
    EmptyRaster()
  }

  /** SaveImageSVG: always false, nothing is written. */
  function SaveImageSVG(r: Raster, path: string): (saved: bool)
    ensures !saved
  {
    false
  }
}
