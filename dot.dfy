// The Graphviz DOT writer: hexadecimal and named colours, the optional
// attribute lists of graphs, nodes and edges, and the two to_dot overloads.
// A stream is modelled as the text written to it; every write of a whole
// output line is one element of a line sequence whose concatenation is the text.
module Dot {
  import opened Util
  import opened GraphTypes
  import opened AdjacencyList

  // ---------------------------------------------------------------------------
  // Decimal numbers, as an std::ostream prints a vertex index.

  predicate IsDigit(c: char)
  {
    '0' <= c <= '9'
  }

  predicate AllDigits(s: string)
  {
    forall i :: 0 <= i < |s| ==> IsDigit(s[i])
  }

  function Digit(d: nat): (c: char)
    requires d < 10
    ensures IsDigit(c) && c as int - '0' as int == d
  {
    ('0' as int + d) as char
  }

  // The decimal digits of n, most significant first, without leading zeros.
  function Decimal(n: nat): (s: string)
    ensures |s| > 0 && AllDigits(s)
    ensures |s| > 1 ==> s[0] != '0'
  {
    if n < 10 then [Digit(n)] else Decimal(n / 10) + [Digit(n % 10)]
  }

  // The value of a digit string.
  function DecimalValue(s: string): nat
    requires AllDigits(s)
  {
    if s == [] then 0
    else DecimalValue(s[..|s| - 1]) * 10 + (s[|s| - 1] as int - '0' as int)
  }

  // Reading a printed index back gives the index: printing is injective.
  lemma {:induction false} DecimalRoundTrip(n: nat)
    ensures DecimalValue(Decimal(n)) == n
  {
    if n >= 10 {
      var s := Decimal(n);
      assert s[..|s| - 1] == Decimal(n / 10);
      DecimalRoundTrip(n / 10);
    } else {
      assert Decimal(n)[..0] == [];
    }
  }

  // A digit string followed by a text that starts with a non-digit can be
  // split in only one way.
  lemma DigitsSplit(a: string, x: string, b: string, y: string)
    requires AllDigits(a) && AllDigits(b)
    requires |x| > 0 && |y| > 0 && !IsDigit(x[0]) && !IsDigit(y[0])
    requires a + x == b + y
    ensures a == b && x == y
  {
    assert (a + x)[|a|] == x[0];
    assert (b + y)[|b|] == y[0];
    assert |a| == |b|;
    assert a == (a + x)[..|a|] && b == (b + y)[..|b|];
    assert x == (a + x)[|a|..] && y == (b + y)[|b|..];
  }

  // ---------------------------------------------------------------------------
  // Hexadecimal colours (color_hex).

  type Byte = x: nat | x < 256

  // The value of a lower-case hexadecimal digit.
  function HexValue(c: char): Option<nat>
  {
    if '0' <= c <= '9' then Some(c as int - '0' as int)
    else if 'a' <= c <= 'f' then Some(c as int - 'a' as int + 10)
    else None
  }

  // int2hex: 0-9 become '0'-'9' and 10-15 become 'a'-'f'; the assertion on
  // the argument is the precondition.
  function Int2Hex(x: nat): (c: char)
    requires x < 16
    ensures HexValue(c) == Some(x)
    ensures x < 10 ==> '0' <= c <= '9'
    ensures 10 <= x ==> 'a' <= c <= 'f'
  {
    if x < 10 then ('0' as int + x) as char else ('a' as int + (x - 10)) as char
  }

  // The other direction: a lower-case hexadecimal digit is int2hex of its value.
  lemma HexValueInverse(c: char, x: nat)
    requires HexValue(c) == Some(x)
    ensures x < 16 && Int2Hex(x) == c
  {
  }

  datatype ColorHex = ColorHex(r: Byte, g: Byte, b: Byte, a: Byte)

  // The three-argument constructor: the colour is fully opaque.
  function Rgb(r: Byte, g: Byte, b: Byte): (c: ColorHex)
    ensures c.r == r && c.g == g && c.b == b && c.a == 0xFF
  {
    ColorHex(r, g, b, 0xFF)
  }

  // Two hexadecimal digits, high nibble first.
  function ByteHex(x: Byte): (s: string)
    ensures |s| == 2
  {
    [Int2Hex(x / 16), Int2Hex(x % 16)]
  }

  function ParseByte(s: string): Option<Byte>
    requires |s| == 2
  {
    match (HexValue(s[0]), HexValue(s[1]))
    case (Some(h), Some(l)) => if h < 16 && l < 16 then Some(h * 16 + l) else None
    case _ => None
  }

  lemma ByteRoundTrip(x: Byte)
    ensures ParseByte(ByteHex(x)) == Some(x)
  {
  }

  // operator<<(color_hex): "#rrggbb" in double quotes, with the alpha byte
  // appended only when the colour is not fully opaque.
  function ColorHexText(c: ColorHex): (s: string)
    ensures |s| == if c.a == 0xFF then 9 else 11
    ensures s[0] == '"' && s[1] == '#' && s[|s| - 1] == '"'
  {
    "\"#" + ByteHex(c.r) + ByteHex(c.g) + ByteHex(c.b)
      + (if c.a != 0xFF then ByteHex(c.a) else "") + "\""
  }

  // Reading a quoted "#rrggbb" or "#rrggbbaa" back into a colour.
  function ParseColorHex(s: string): Option<ColorHex>
  {
    if (|s| == 9 || |s| == 11) && s[0] == '"' && s[1] == '#' && s[|s| - 1] == '"' then
      match (ParseByte(s[2..4]), ParseByte(s[4..6]), ParseByte(s[6..8]),
             if |s| == 11 then ParseByte(s[8..10]) else Some(0xFF))
      case (Some(r), Some(g), Some(b), Some(a)) => Some(ColorHex(r, g, b, a))
      case _ => None
    else None
  }

  // Every hexadecimal colour is printed so that it can be read back exactly:
  // leaving out an alpha of 0xFF loses nothing.
  lemma ColorHexRoundTrip(c: ColorHex)
    ensures ParseColorHex(ColorHexText(c)) == Some(c)
  {
    var s := ColorHexText(c);
    assert s[2..4] == ByteHex(c.r) && s[4..6] == ByteHex(c.g) && s[6..8] == ByteHex(c.b);
    ByteRoundTrip(c.r);
    ByteRoundTrip(c.g);
    ByteRoundTrip(c.b);
    if c.a != 0xFF {
      assert s[8..10] == ByteHex(c.a);
      ByteRoundTrip(c.a);
    }
  }

  // ---------------------------------------------------------------------------
  // Named colours (color_enum).

  datatype ColorName =
    | Aqua | Black | Blue | DarkBlue | Brown | Crimson | Cyan | Fuchsia | Gold | Gray
    | Green | DarkGreen | Lime | Olive | Orange | Pink | Purple | Red | Teal | White | Yellow

  // operator<<(color_enum): the fixed name of each colour.
  function NameText(c: ColorName): string
  {
    match c
    case Aqua => "Aqua"
    case Black => "Black"
    case Blue => "Blue"
    case DarkBlue => "Dark Blue"
    case Brown => "Brown"
    case Crimson => "Crimson"
    case Cyan => "Cyan"
    case Fuchsia => "Fuchsia"
    case Gold => "Gold"
    case Gray => "Gray"
    case Green => "Green"
    case DarkGreen => "Dark Green"
    case Lime => "Lime"
    case Olive => "Olive"
    case Orange => "Orange"
    case Pink => "Pink"
    case Purple => "Purple"
    case Red => "Red"
    case Teal => "Teal"
    case White => "White"
    case Yellow => "Yellow"
  }

  // The colour a name stands for, if any.
  function NamedColor(s: string): Option<ColorName>
  {
    if s == "Aqua" then Some(Aqua)
    else if s == "Black" then Some(Black)
    else if s == "Blue" then Some(Blue)
    else if s == "Dark Blue" then Some(DarkBlue)
    else if s == "Brown" then Some(Brown)
    else if s == "Crimson" then Some(Crimson)
    else if s == "Cyan" then Some(Cyan)
    else if s == "Fuchsia" then Some(Fuchsia)
    else if s == "Gold" then Some(Gold)
    else if s == "Gray" then Some(Gray)
    else if s == "Green" then Some(Green)
    else if s == "Dark Green" then Some(DarkGreen)
    else if s == "Lime" then Some(Lime)
    else if s == "Olive" then Some(Olive)
    else if s == "Orange" then Some(Orange)
    else if s == "Pink" then Some(Pink)
    else if s == "Purple" then Some(Purple)
    else if s == "Red" then Some(Red)
    else if s == "Teal" then Some(Teal)
    else if s == "White" then Some(White)
    else if s == "Yellow" then Some(Yellow)
    else None
  }

  // Every colour has its own name: the name determines the colour.
  lemma NameRoundTrip(c: ColorName)
    ensures NamedColor(NameText(c)) == Some(c)
    ensures |NameText(c)| > 0 && NameText(c)[0] != '"'
  {
    if c.Aqua? || c.Black? || c.Blue? || c.DarkBlue? || c.Brown? || c.Crimson? || c.Cyan? {
      FirstNames(c);
    } else if c.Fuchsia? || c.Gold? || c.Gray? || c.Green? || c.DarkGreen? || c.Lime? || c.Olive? {
      MiddleNames(c);
    } else {
      LastNames(c);
    }
  }

  lemma FirstNames(c: ColorName)
    requires c.Aqua? || c.Black? || c.Blue? || c.DarkBlue? || c.Brown? || c.Crimson? || c.Cyan?
    ensures NamedColor(NameText(c)) == Some(c)
    ensures |NameText(c)| > 0 && NameText(c)[0] != '"'
  {
  }

  lemma MiddleNames(c: ColorName)
    requires c.Fuchsia? || c.Gold? || c.Gray? || c.Green? || c.DarkGreen? || c.Lime? || c.Olive?
    ensures NamedColor(NameText(c)) == Some(c)
    ensures |NameText(c)| > 0 && NameText(c)[0] != '"'
  {
  }

  lemma LastNames(c: ColorName)
    requires c.Orange? || c.Pink? || c.Purple? || c.Red? || c.Teal? || c.White? || c.Yellow?
    ensures NamedColor(NameText(c)) == Some(c)
    ensures |NameText(c)| > 0 && NameText(c)[0] != '"'
  {
  }

  // color_t: a hexadecimal or a named colour, printed as the alternative it holds.
  datatype Color = Hex(hex: ColorHex) | Named(name: ColorName)

  function ColorText(c: Color): string
  {
    match c
    case Hex(h) => ColorHexText(h)
    case Named(n) => NameText(n)
  }

  function ParseColor(s: string): Option<Color>
  {
    if |s| > 0 && s[0] == '"' then
      match ParseColorHex(s)
      case Some(h) => Some(Hex(h))
      case None => None
    else
      match NamedColor(s)
      case Some(n) => Some(Named(n))
      case None => None
  }

  // The printed form of a colour determines the colour.
  lemma ColorRoundTrip(c: Color)
    ensures ParseColor(ColorText(c)) == Some(c)
  {
    match c
    case Hex(h) => ColorHexRoundTrip(h);
    case Named(n) => NameRoundTrip(n);
  }

  // ---------------------------------------------------------------------------
  // Quoted strings (std::quoted with '"' as delimiter and '\\' as escape).

  function Escaped(s: string): string
  {
    if s == [] then []
    else (if s[0] == '"' || s[0] == '\\' then ['\\', s[0]] else [s[0]]) + Escaped(s[1..])
  }

  function Unescaped(t: string): string
  {
    if t == [] then []
    else if t[0] == '\\' && |t| >= 2 then [t[1]] + Unescaped(t[2..])
    else [t[0]] + Unescaped(t[1..])
  }

  function Quoted(s: string): (t: string)
    ensures |t| >= 2 && t[0] == '"' && t[|t| - 1] == '"'
  {
    "\"" + Escaped(s) + "\""
  }

  lemma {:induction false} EscapedRoundTrip(s: string)
    ensures Unescaped(Escaped(s)) == s
  {
    if s != [] {
      EscapedRoundTrip(s[1..]);
      var t := Escaped(s);
      if s[0] == '"' || s[0] == '\\' {
        assert t[0] == '\\' && t[1] == s[0] && t[2..] == Escaped(s[1..]);
      } else {
        assert t[0] == s[0] && t[1..] == Escaped(s[1..]);
      }
    }
  }

  // A quoted label or font name reads back as the original string.
  lemma QuotedRoundTrip(s: string)
    ensures Unescaped(Quoted(s)[1..|Quoted(s)| - 1]) == s
  {
    assert Quoted(s)[1..|Quoted(s)| - 1] == Escaped(s);
    EscapedRoundTrip(s);
  }

  // ---------------------------------------------------------------------------
  // Attribute lists.

  // penwidth_t and fontsize_t: a double, kept as the text the stream prints for it.
  datatype Number = Number(text: string)

  // graph_attributes: every field is optional.
  datatype GraphAttributes = GraphAttributes(
    bgcolor: Option<Color>, labelText: Option<string>, fontcolor: Option<Color>,
    fontname: Option<string>, fontsize: Option<Number>, custom: Option<string>)

  const NoGraphAttributes := GraphAttributes(None, None, None, None, None, None)

  // graph_attributes::any: at least one field is set.
  predicate GraphAny(ga: GraphAttributes)
  {
    ga.bgcolor.Some? || ga.labelText.Some? || ga.fontcolor.Some?
      || ga.fontname.Some? || ga.fontsize.Some? || ga.custom.Some?
  }

  lemma GraphAnyIff(ga: GraphAttributes)
    ensures GraphAny(ga) <==> ga != NoGraphAttributes
  {
  }

  // operator<<(graph_attributes): one "\tname=value;\n" line per set field,
  // labels and font names quoted, the custom text written as it is.
  function GraphAttributeLines(ga: GraphAttributes): seq<string>
  {
    (if ga.bgcolor.Some? then ["\tbgcolor=" + ColorText(ga.bgcolor.value) + ";\n"] else [])
    + (if ga.labelText.Some? then ["\tlabel=" + Quoted(ga.labelText.value) + ";\n"] else [])
    + (if ga.fontcolor.Some? then ["\tfontcolor=" + ColorText(ga.fontcolor.value) + ";\n"] else [])
    + (if ga.fontname.Some? then ["\tfontname=" + Quoted(ga.fontname.value) + ";\n"] else [])
    + (if ga.fontsize.Some? then ["\tfontsize=" + ga.fontsize.value.text + ";\n"] else [])
    + (if ga.custom.Some? then ["\t" + ga.custom.value + ";\n"] else [])
  }

  // The graph attributes write nothing exactly when none is set.
  lemma GraphAttributeLinesEmpty(ga: GraphAttributes)
    ensures GraphAttributeLines(ga) == [] <==> !GraphAny(ga)
  {
  }

  // node_attributes and edge_attributes: the same eight optional fields.
  datatype ElementAttributes = ElementAttributes(
    color: Option<Color>, penwidth: Option<Number>, fillcolor: Option<Color>,
    labelText: Option<string>, fontcolor: Option<Color>, fontname: Option<string>,
    fontsize: Option<Number>, custom: Option<string>)

  const NoAttributes := ElementAttributes(None, None, None, None, None, None, None, None)

  // node_attributes::any and edge_attributes::any.
  predicate Any(a: ElementAttributes)
  {
    a.color.Some? || a.penwidth.Some? || a.fillcolor.Some? || a.labelText.Some?
      || a.fontcolor.Some? || a.fontname.Some? || a.fontsize.Some? || a.custom.Some?
  }

  lemma AnyIff(a: ElementAttributes)
    ensures Any(a) <==> a != NoAttributes
  {
  }

  // One entry of an attribute list: the field's text and the separator ", "
  // when the field is set, nothing otherwise.
  function Entry(present: bool, body: string): (s: string)
  {
    if present then body + ", " else ""
  }

  function ColorField(name: string, c: Option<Color>): string
  {
    if c.Some? then name + ColorText(c.value) else ""
  }

  function NumberField(name: string, n: Option<Number>): string
  {
    if n.Some? then name + n.value.text else ""
  }

  function QuotedField(name: string, s: Option<string>): string
  {
    if s.Some? then name + Quoted(s.value) else ""
  }

  // operator<<(node_attributes) when node holds, operator<<(edge_attributes)
  // otherwise: "name=value, " per set field, in field order; a node fill colour
  // adds "style=filled, ".
  // Which of the eight attribute fields are set, in output order.
  function Presence(a: ElementAttributes): seq<bool>
  {
    [a.color.Some?, a.penwidth.Some?, a.fillcolor.Some?, a.labelText.Some?,
     a.fontcolor.Some?, a.fontname.Some?, a.fontsize.Some?, a.custom.Some?]
  }

  // The text each field contributes when set, in the same order.
  function Bodies(a: ElementAttributes, node: bool): seq<string>
  {
    [ ColorField("color=", a.color),
      NumberField("penwidth=", a.penwidth),
      ColorField("fillcolor=", a.fillcolor) + (if node then ", style=filled" else ""),
      QuotedField("label=", a.labelText),
      ColorField("fontcolor=", a.fontcolor),
      QuotedField("fontname=", a.fontname),
      NumberField("fontsize=", a.fontsize),
      if a.custom.Some? then a.custom.value else "" ]
  }

  function AttributeParts(a: ElementAttributes, node: bool): seq<string>
  {
    seq(8, i requires 0 <= i < 8 => Entry(Presence(a)[i], Bodies(a, node)[i]))
  }

  function AttributesText(a: ElementAttributes, node: bool): string
  {
    Join(AttributeParts(a, node))
  }

  // s ends in the separator ", ".
  predicate EndsInSeparator(s: string)
  {
    |s| >= 2 && s[|s| - 2..] == ", "
  }

  // An entry is empty exactly when its field is not set, and ends in the
  // separator otherwise.
  lemma EntryShape(present: bool, body: string)
    ensures Entry(present, body) == "" <==> !present
    ensures present ==> EndsInSeparator(Entry(present, body))
  {
    if present {
      var s := body + ", ";
      assert s[|s| - 2..] == ", ";
    }
  }

  // Entries are empty or end in the separator, and some entry is not empty
  // exactly when some field is present.
  lemma EntriesShape(ps: seq<string>, present: seq<bool>, bodies: seq<string>)
    requires |ps| == |present| == |bodies|
    requires forall i :: 0 <= i < |ps| ==> ps[i] == Entry(present[i], bodies[i])
    ensures forall i :: 0 <= i < |ps| ==> ps[i] == "" || EndsInSeparator(ps[i])
    ensures (exists i :: 0 <= i < |ps| && ps[i] != "") <==> exists i :: 0 <= i < |ps| && present[i]
  {
    forall i | 0 <= i < |ps|
      ensures ps[i] == "" <==> !present[i]
      ensures present[i] ==> EndsInSeparator(ps[i])
    {
      EntryShape(present[i], bodies[i]);
    }
  }

  // Each part is empty or ends in the separator, and some part is not empty
  // exactly when some field is set.
  // Some attribute is set exactly when some presence flag is.
  lemma PresenceAny(a: ElementAttributes)
    ensures |Presence(a)| == 8
    ensures Any(a) <==> exists i :: 0 <= i < 8 && Presence(a)[i]
  {
    var present := Presence(a);
    if Any(a) {
      var i := if a.color.Some? then 0 else if a.penwidth.Some? then 1
        else if a.fillcolor.Some? then 2 else if a.labelText.Some? then 3
        else if a.fontcolor.Some? then 4 else if a.fontname.Some? then 5
        else if a.fontsize.Some? then 6 else 7;
      assert present[i];
    } else {
      forall i | 0 <= i < 8 ensures !present[i] { }
    }
  }

  lemma AttributePartsShape(a: ElementAttributes, node: bool)
    ensures |AttributeParts(a, node)| == 8
    ensures forall i :: 0 <= i < 8 ==> AttributeParts(a, node)[i] == "" || EndsInSeparator(AttributeParts(a, node)[i])
    ensures Any(a) <==> exists i :: 0 <= i < 8 && AttributeParts(a, node)[i] != ""
  {
    PresenceAny(a);
    EntriesShape(AttributeParts(a, node), Presence(a), Bodies(a, node));
  }

  // Lines join to nothing exactly when every line is empty.
  lemma {:induction false} JoinEmpty(ps: seq<string>)
    ensures Join(ps) == "" <==> forall i :: 0 <= i < |ps| ==> ps[i] == ""
  {
    if ps != [] {
      var init := ps[..|ps| - 1];
      JoinEmpty(init);
      assert forall i :: 0 <= i < |init| ==> init[i] == ps[i];
    }
  }

  // Parts that are empty or end in the separator, not all empty, join to a
  // text that ends in the separator.
  lemma {:induction false} JoinEndsInSeparator(ps: seq<string>)
    requires forall i :: 0 <= i < |ps| ==> ps[i] == "" || EndsInSeparator(ps[i])
    requires exists i :: 0 <= i < |ps| && ps[i] != ""
    ensures EndsInSeparator(Join(ps))
  {
    var init, last := ps[..|ps| - 1], ps[|ps| - 1];
    assert Join(ps) == Join(init) + last;
    if last == "" {
      var i :| 0 <= i < |ps| && ps[i] != "";
      assert init[i] == ps[i];
      JoinEndsInSeparator(init);
      assert Join(ps) == Join(init);
    } else {
      var s := Join(ps);
      assert s[|s| - 2..] == last[|last| - 2..];
    }
  }

  // An attribute list writes nothing exactly when no field is set, and
  // otherwise ends in the separator the writer leaves behind.
  lemma AttributesTextEmpty(a: ElementAttributes, node: bool)
    ensures AttributesText(a, node) == "" <==> !Any(a)
    ensures Any(a) ==> EndsInSeparator(AttributesText(a, node))
  {
    AttributePartsShape(a, node);
    JoinEmpty(AttributeParts(a, node));
    if Any(a) {
      JoinEndsInSeparator(AttributeParts(a, node));
    }
  }

  // ---------------------------------------------------------------------------
  // The lines of a DOT file.

  function Header(directed: bool): string
  {
    (if directed then "di" else "") + "graph\n"
  }

  const Open := "{\n"
  const Close := "}\n"

  // "\t<index>" followed by " [attributes]" when any is set, then ";\n".
  function NodeTail(a: ElementAttributes): (t: string)
    ensures |t| > 0 && !IsDigit(t[0])
  {
    (if Any(a) then " [" + AttributesText(a, true) + "]" else "") + ";\n"
  }

  function NodeLine(v: nat, a: ElementAttributes): string
  {
    "\t" + (Decimal(v) + NodeTail(a))
  }

  function EdgeTail(a: ElementAttributes): (t: string)
    ensures |t| > 0 && !IsDigit(t[0])
  {
    (if Any(a) then " [" + AttributesText(a, false) + "]" else "") + ";\n"
  }

  // "\t<from>-><to>" or "\t<from>--<to>", then the attributes and ";\n".
  function EdgeLine(u: nat, w: nat, directed: bool, a: ElementAttributes): string
  {
    "\t" + (Decimal(u) + ((if directed then "->" else "--") + (Decimal(w) + EdgeTail(a))))
  }

  // A vertex line names its vertex: different vertices give different lines.
  lemma NodeLineVertex(v: nat, a: ElementAttributes, v': nat, a': ElementAttributes)
    requires NodeLine(v, a) == NodeLine(v', a')
    ensures v == v'
  {
    assert NodeLine(v, a)[1..] == Decimal(v) + NodeTail(a);
    assert NodeLine(v', a')[1..] == Decimal(v') + NodeTail(a');
    DigitsSplit(Decimal(v), NodeTail(a), Decimal(v'), NodeTail(a'));
    DecimalRoundTrip(v);
    DecimalRoundTrip(v');
  }

  // An edge line names its endpoints and its kind.
  lemma EdgeLineFields(u: nat, w: nat, d: bool, a: ElementAttributes,
                       u': nat, w': nat, d': bool, a': ElementAttributes)
    requires EdgeLine(u, w, d, a) == EdgeLine(u', w', d', a')
    ensures u == u' && w == w' && d == d'
  {
    var x := (if d then "->" else "--") + (Decimal(w) + EdgeTail(a));
    var x' := (if d' then "->" else "--") + (Decimal(w') + EdgeTail(a'));
    assert EdgeLine(u, w, d, a)[1..] == Decimal(u) + x;
    assert EdgeLine(u', w', d', a')[1..] == Decimal(u') + x';
    DigitsSplit(Decimal(u), x, Decimal(u'), x');
    assert x[1] == (if d then '>' else '-') && x'[1] == (if d' then '>' else '-');
    assert x[2..] == Decimal(w) + EdgeTail(a) && x'[2..] == Decimal(w') + EdgeTail(a');
    DigitsSplit(Decimal(w), EdgeTail(a), Decimal(w'), EdgeTail(a'));
    DecimalRoundTrip(u);
    DecimalRoundTrip(u');
    DecimalRoundTrip(w);
    DecimalRoundTrip(w');
  }

  // A record u -> to is written unless the graph is undirected and u > to.
  predicate Shown(u: nat, to: nat, directed: bool)
  {
    directed || u <= to
  }

  // The edge lines of one vertex.
  function RowLines<E>(u: nat, outs: seq<OutEdge<E>>, directed: bool,
                       ea: (nat, OutEdge<E>) -> ElementAttributes): seq<string>
  {
    if outs == [] then []
    else
      var last := outs[|outs| - 1];
      RowLines(u, outs[..|outs| - 1], directed, ea)
        + (if Shown(u, last.to, directed) then [EdgeLine(u, last.to, directed, ea(u, last))] else [])
  }

  // The edge lines of all vertices, vertex by vertex.
  function EdgeLines<V, E>(vs: seq<Vertex<V, E>>, directed: bool,
                           ea: (nat, OutEdge<E>) -> ElementAttributes): seq<string>
  {
    if vs == [] then []
    else EdgeLines(vs[..|vs| - 1], directed, ea) + RowLines(|vs| - 1, vs[|vs| - 1].outs, directed, ea)
  }

  // The attributed overload's vertex lines: a vertex is written when it has no
  // out-edges or its attributes are not all empty.
  function VertexLines<V, E>(vs: seq<Vertex<V, E>>,
                             na: (nat, Vertex<V, E>) -> ElementAttributes): seq<string>
  {
    if vs == [] then []
    else
      var v := |vs| - 1;
      VertexLines(vs[..v], na)
        + (if vs[v].outs == [] || Any(na(v, vs[v])) then [NodeLine(v, na(v, vs[v]))] else [])
  }

  // The simple overload's vertex lines: "\t<index>;\n" for every index.
  function PlainVertexLines(n: nat): seq<string>
  {
    if n == 0 then [] else PlainVertexLines(n - 1) + [NodeLine(n - 1, NoAttributes)]
  }

  function NoEdgeAttributes<E>(): (nat, OutEdge<E>) -> ElementAttributes
  {
    (u: nat, out: OutEdge<E>) => NoAttributes
  }

  // "\tnode [...]\n" or "\tedge [...]\n" for global attributes that are set.
  function GlobalLines(kind: string, a: ElementAttributes, node: bool): seq<string>
  {
    if Any(a) then ["\t" + kind + " [" + AttributesText(a, node) + "]\n"] else []
  }

  // The lines the simple to_dot writes.
  function PlainLines<V, E>(vs: seq<Vertex<V, E>>, directed: bool): seq<string>
  {
    [Header(directed), Open] + PlainVertexLines(|vs|) + EdgeLines(vs, directed, NoEdgeAttributes()) + [Close]
  }

  // The lines the attributed to_dot writes.
  function DotLines<V, E>(vs: seq<Vertex<V, E>>, directed: bool, ga: GraphAttributes,
                          gna: ElementAttributes, gea: ElementAttributes,
                          na: (nat, Vertex<V, E>) -> ElementAttributes,
                          ea: (nat, OutEdge<E>) -> ElementAttributes): seq<string>
  {
    [Header(directed), Open] + GraphAttributeLines(ga)
      + GlobalLines("node", gna, true) + GlobalLines("edge", gea, false)
      + VertexLines(vs, na) + EdgeLines(vs, directed, ea) + [Close]
  }

  // The text of a sequence of lines.
  function Join(lines: seq<string>): string
  {
    if lines == [] then "" else Join(lines[..|lines| - 1]) + lines[|lines| - 1]
  }

  lemma JoinAppend(lines: seq<string>, l: string)
    ensures Join(lines + [l]) == Join(lines) + l
  {
    assert (lines + [l])[..|lines|] == lines;
  }

  lemma {:induction false} JoinConcat(a: seq<string>, b: seq<string>)
    ensures Join(a + b) == Join(a) + Join(b)
  {
    if b == [] {
      assert a + b == a;
    } else {
      var b' := b[..|b| - 1];
      assert a + b == (a + b') + [b[|b| - 1]];
      JoinAppend(a + b', b[|b| - 1]);
      JoinConcat(a, b');
    }
  }

  // ---------------------------------------------------------------------------
  // What the lines say about the graph.

  lemma {:induction false} PlainVertexLinesAt(n: nat)
    ensures |PlainVertexLines(n)| == n
    ensures forall v :: 0 <= v < n ==> PlainVertexLines(n)[v] == "\t" + Decimal(v) + ";\n"
  {
    if n > 0 {
      PlainVertexLinesAt(n - 1);
      assert NodeLine(n - 1, NoAttributes) == "\t" + Decimal(n - 1) + ";\n";
    }
  }

  // The simple overload: "digraph" or "graph", an opening brace, "\t<v>;\n"
  // for every vertex v in order, the edge lines and a closing brace.
  lemma PlainShape<V, E>(vs: seq<Vertex<V, E>>, directed: bool)
    ensures var L := PlainLines(vs, directed);
            |L| == |vs| + |EdgeLines(vs, directed, NoEdgeAttributes())| + 3
            && L[0] == (if directed then "digraph\n" else "graph\n") && L[1] == "{\n"
            && (forall v :: 0 <= v < |vs| ==> L[v + 2] == "\t" + Decimal(v) + ";\n")
            && L[|L| - 1] == "}\n"
  {
    PlainVertexLinesAt(|vs|);
    var L := PlainLines(vs, directed);
    forall v | 0 <= v < |vs| ensures L[v + 2] == "\t" + Decimal(v) + ";\n" {
      assert L[v + 2] == PlainVertexLines(|vs|)[v];
    }
  }

  lemma {:induction false} RowLinesFrom<E>(u: nat, outs: seq<OutEdge<E>>, directed: bool,
                                            ea: (nat, OutEdge<E>) -> ElementAttributes, l: string)
    requires l in RowLines(u, outs, directed, ea)
    ensures exists i :: 0 <= i < |outs| && Shown(u, outs[i].to, directed)
                        && l == EdgeLine(u, outs[i].to, directed, ea(u, outs[i]))
  {
    var pre := outs[..|outs| - 1];
    if l in RowLines(u, pre, directed, ea) {
      RowLinesFrom(u, pre, directed, ea, l);
      var i :| 0 <= i < |pre| && Shown(u, pre[i].to, directed)
               && l == EdgeLine(u, pre[i].to, directed, ea(u, pre[i]));
      assert pre[i] == outs[i];
    } else {
      assert l == EdgeLine(u, outs[|outs| - 1].to, directed, ea(u, outs[|outs| - 1]));
    }
  }

  lemma {:induction false} RowLinesHas<E>(u: nat, outs: seq<OutEdge<E>>, directed: bool,
                                           ea: (nat, OutEdge<E>) -> ElementAttributes, i: nat)
    requires i < |outs| && Shown(u, outs[i].to, directed)
    ensures EdgeLine(u, outs[i].to, directed, ea(u, outs[i])) in RowLines(u, outs, directed, ea)
  {
    if i < |outs| - 1 {
      var pre := outs[..|outs| - 1];
      assert pre[i] == outs[i];
      RowLinesHas(u, pre, directed, ea, i);
    }
  }

  // Every edge line comes from a written record.
  lemma {:induction false} EdgeLinesFrom<V, E>(vs: seq<Vertex<V, E>>, directed: bool,
                                                ea: (nat, OutEdge<E>) -> ElementAttributes, l: string)
    requires l in EdgeLines(vs, directed, ea)
    ensures exists u, i :: 0 <= u < |vs| && 0 <= i < |vs[u].outs| && Shown(u, vs[u].outs[i].to, directed)
                           && l == EdgeLine(u, vs[u].outs[i].to, directed, ea(u, vs[u].outs[i]))
  {
    var pre := vs[..|vs| - 1];
    if l in EdgeLines(pre, directed, ea) {
      EdgeLinesFrom(pre, directed, ea, l);
      var u, i :| 0 <= u < |pre| && 0 <= i < |pre[u].outs| && Shown(u, pre[u].outs[i].to, directed)
                  && l == EdgeLine(u, pre[u].outs[i].to, directed, ea(u, pre[u].outs[i]));
      assert pre[u] == vs[u];
    } else {
      RowLinesFrom(|vs| - 1, vs[|vs| - 1].outs, directed, ea, l);
    }
  }

  // Every written record has its edge line.
  lemma {:induction false} EdgeLinesHas<V, E>(vs: seq<Vertex<V, E>>, directed: bool,
                                               ea: (nat, OutEdge<E>) -> ElementAttributes, u: nat, i: nat)
    requires u < |vs| && i < |vs[u].outs| && Shown(u, vs[u].outs[i].to, directed)
    ensures EdgeLine(u, vs[u].outs[i].to, directed, ea(u, vs[u].outs[i])) in EdgeLines(vs, directed, ea)
  {
    var pre := vs[..|vs| - 1];
    if u < |vs| - 1 {
      assert pre[u] == vs[u];
      EdgeLinesHas(pre, directed, ea, u, i);
    } else {
      RowLinesHas(u, vs[u].outs, directed, ea, i);
    }
  }

  // The simple overload writes "u->w" exactly for the records u -> w of a
  // directed graph, and "u--w" exactly for the records with u <= w of an
  // undirected one.
  lemma PlainEdges<V, E>(vs: seq<Vertex<V, E>>, directed: bool)
    ensures forall u: nat, w: nat ::
              EdgeLine(u, w, directed, NoAttributes) in EdgeLines(vs, directed, NoEdgeAttributes())
              <==> HasEdge(vs, u, w) && Shown(u, w, directed)
  {
    var ea := NoEdgeAttributes<E>();
    forall u: nat, w: nat
      ensures EdgeLine(u, w, directed, NoAttributes) in EdgeLines(vs, directed, ea)
              <==> HasEdge(vs, u, w) && Shown(u, w, directed)
    {
      var l := EdgeLine(u, w, directed, NoAttributes);
      if l in EdgeLines(vs, directed, ea) {
        EdgeLinesFrom(vs, directed, ea, l);
        var u', i :| 0 <= u' < |vs| && 0 <= i < |vs[u'].outs| && Shown(u', vs[u'].outs[i].to, directed)
                     && l == EdgeLine(u', vs[u'].outs[i].to, directed, ea(u', vs[u'].outs[i]));
        EdgeLineFields(u, w, directed, NoAttributes, u', vs[u'].outs[i].to, directed, ea(u', vs[u'].outs[i]));
      }
      if HasEdge(vs, u, w) && Shown(u, w, directed) {
        var i :| 0 <= i < |vs[u].outs| && vs[u].outs[i].to == w;
        EdgeLinesHas(vs, directed, ea, u, i);
      }
    }
  }

  // The attributed overload writes the vertex line of v exactly when v has
  // no out-edges or its attributes are not all empty, and writes no other
  // vertex lines.
  lemma {:induction false} VertexLinesIff<V, E>(vs: seq<Vertex<V, E>>,
                                                 na: (nat, Vertex<V, E>) -> ElementAttributes)
    ensures forall v :: 0 <= v < |vs| ==>
              (NodeLine(v, na(v, vs[v])) in VertexLines(vs, na) <==> vs[v].outs == [] || Any(na(v, vs[v])))
    ensures forall l :: l in VertexLines(vs, na) ==>
              exists v :: 0 <= v < |vs| && (vs[v].outs == [] || Any(na(v, vs[v]))) && l == NodeLine(v, na(v, vs[v]))
  {
    if vs != [] {
      var n := |vs| - 1;
      var pre := vs[..n];
      VertexLinesIff(pre, na);
      forall l | l in VertexLines(vs, na)
        ensures exists v :: 0 <= v < |vs| && (vs[v].outs == [] || Any(na(v, vs[v]))) && l == NodeLine(v, na(v, vs[v]))
      {
        if l in VertexLines(pre, na) {
          var v :| 0 <= v < |pre| && (pre[v].outs == [] || Any(na(v, pre[v]))) && l == NodeLine(v, na(v, pre[v]));
          assert pre[v] == vs[v];
        } else {
          assert l == NodeLine(n, na(n, vs[n]));
        }
      }
      forall v | 0 <= v < |vs|
        ensures NodeLine(v, na(v, vs[v])) in VertexLines(vs, na) <==> vs[v].outs == [] || Any(na(v, vs[v]))
      {
        var l := NodeLine(v, na(v, vs[v]));
        if v < n {
          assert pre[v] == vs[v];
          if l !in VertexLines(pre, na) && l in VertexLines(vs, na) {
            assert l == NodeLine(n, na(n, vs[n]));
            NodeLineVertex(v, na(v, vs[v]), n, na(n, vs[n]));
          }
        } else if l in VertexLines(pre, na) {
          var v' :| 0 <= v' < |pre| && (pre[v'].outs == [] || Any(na(v', pre[v']))) && l == NodeLine(v', na(v', pre[v']));
          NodeLineVertex(v, na(v, vs[v]), v', na(v', pre[v']));
        }
      }
    }
  }

  // A directed graph gets one edge line per record.
  lemma {:induction false} DirectedEdgeLinesCount<V, E>(vs: seq<Vertex<V, E>>,
                                                         ea: (nat, OutEdge<E>) -> ElementAttributes)
    ensures |EdgeLines(vs, true, ea)| == Records(vs)
  {
    if vs != [] {
      DirectedEdgeLinesCount(vs[..|vs| - 1], ea);
      RowLinesDirectedCount(|vs| - 1, vs[|vs| - 1].outs, ea);
    }
  }

  lemma {:induction false} RowLinesDirectedCount<E>(u: nat, outs: seq<OutEdge<E>>,
                                                     ea: (nat, OutEdge<E>) -> ElementAttributes)
    ensures |RowLines(u, outs, true, ea)| == |outs|
  {
    if outs != [] {
      RowLinesDirectedCount(u, outs[..|outs| - 1], ea);
    }
  }

  lemma {:induction false} RowLinesUpper<E>(u: nat, outs: seq<OutEdge<E>>,
                                             ea: (nat, OutEdge<E>) -> ElementAttributes)
    requires DistinctTargets(outs)
    ensures |RowLines(u, outs, false, ea)| == |Upper(RowPairs(u, outs))|
  {
    if outs != [] {
      var pre := outs[..|outs| - 1];
      var last := outs[|outs| - 1];
      assert DistinctTargets(pre) by {
        forall i, j | 0 <= i < j < |pre| ensures pre[i].to != pre[j].to {
          assert pre[i] == outs[i] && pre[j] == outs[j];
        }
      }
      RowLinesUpper(u, pre, ea);
      assert (u, last.to) !in RowPairs(u, pre) by {
        forall i | 0 <= i < |pre| ensures pre[i].to != last.to {
          assert pre[i] == outs[i];
        }
      }
      assert RowPairs(u, outs) == RowPairs(u, pre) + {(u, last.to)};
      UpperAdd(RowPairs(u, pre), (u, last.to));
    }
  }

  lemma {:induction false} EdgeLinesUpper<V, E>(vs: seq<Vertex<V, E>>,
                                                 ea: (nat, OutEdge<E>) -> ElementAttributes)
    requires NoMultiEdges(vs)
    ensures |EdgeLines(vs, false, ea)| == |Upper(EdgePairs(vs))|
  {
    if vs != [] {
      var u := |vs| - 1;
      var pre := vs[..u];
      assert NoMultiEdges(pre) by {
        forall k | 0 <= k < |pre| ensures DistinctTargets(pre[k].outs) {
          assert pre[k] == vs[k];
        }
      }
      EdgeLinesUpper(pre, ea);
      RowLinesUpper(u, vs[u].outs, ea);
      EdgePairsMembers(pre);
      assert Upper(EdgePairs(vs)) == Upper(EdgePairs(pre)) + Upper(RowPairs(u, vs[u].outs));
      assert Upper(EdgePairs(pre)) !! Upper(RowPairs(u, vs[u].outs)) by {
        forall p | p in RowPairs(u, vs[u].outs) ensures p !in EdgePairs(pre) {
          assert p.0 == u;
        }
      }
    }
  }

  // An undirected graph gets one edge line per edge: half of its records.
  lemma UndirectedEdgeLinesCount<V, E>(vs: seq<Vertex<V, E>>, ea: (nat, OutEdge<E>) -> ElementAttributes)
    requires Simple(vs) && Symmetric(vs)
    ensures 2 * |EdgeLines(vs, false, ea)| == Records(vs)
  {
    EdgeLinesUpper(vs, ea);
    EdgePairsMembers(vs);
    EdgePairsCard(vs);
    forall p | p in EdgePairs(vs) ensures p.0 != p.1 && (p.1, p.0) in EdgePairs(vs) {
      var i :| 0 <= i < |vs[p.0].outs| && vs[p.0].outs[i].to == p.1;
    }
    SwapHalf(EdgePairs(vs));
  }

  // The attributed overload opens with "digraph" or "graph" and an opening
  // brace, writes the global node and edge lines exactly when those
  // attributes are set, and ends with the closing brace.
  lemma DotFrame<V, E>(vs: seq<Vertex<V, E>>, directed: bool, ga: GraphAttributes,
                       gna: ElementAttributes, gea: ElementAttributes,
                       na: (nat, Vertex<V, E>) -> ElementAttributes,
                       ea: (nat, OutEdge<E>) -> ElementAttributes)
    ensures var L := DotLines(vs, directed, ga, gna, gea, na, ea);
            L[0] == (if directed then "digraph\n" else "graph\n") && L[1] == "{\n"
            && L[|L| - 1] == "}\n"
            && |L| == 3 + |GraphAttributeLines(ga)| + (if Any(gna) then 1 else 0)
                 + (if Any(gea) then 1 else 0) + |VertexLines(vs, na)| + |EdgeLines(vs, directed, ea)|
  {
    var L := DotLines(vs, directed, ga, gna, gea, na, ea);
    var mid := GraphAttributeLines(ga) + GlobalLines("node", gna, true) + GlobalLines("edge", gea, false)
               + VertexLines(vs, na) + EdgeLines(vs, directed, ea);
    assert L == [Header(directed), Open] + mid + [Close];
    assert |GlobalLines("node", gna, true)| == (if Any(gna) then 1 else 0);
    assert |GlobalLines("edge", gea, false)| == (if Any(gea) then 1 else 0);
  }

  // ---------------------------------------------------------------------------
  // The writers.

  method WriteRow<E>(u: nat, outs: seq<OutEdge<E>>, directed: bool,
                     ea: (nat, OutEdge<E>) -> ElementAttributes) returns (text: string)
    ensures text == Join(RowLines(u, outs, directed, ea))
  {
    text := "";
    var i := 0;
    while i < |outs|
      invariant i <= |outs| && text == Join(RowLines(u, outs[..i], directed, ea))
    {
      var out := outs[i];
      ghost var before := RowLines(u, outs[..i], directed, ea);
      assert outs[..i + 1][..i] == outs[..i] && outs[..i + 1][i] == out;
      if Shown(u, out.to, directed) {
        var line := EdgeLine(u, out.to, directed, ea(u, out));
        assert RowLines(u, outs[..i + 1], directed, ea) == before + [line];
        JoinAppend(before, line);
        text := text + line;
      } else {
        assert RowLines(u, outs[..i + 1], directed, ea) == before;
      }
      i := i + 1;
    }
    assert outs[..|outs|] == outs;
  }

  // The edge loop both overloads share: every record of every vertex, in order.
  method WriteEdges<V, E>(vs: seq<Vertex<V, E>>, directed: bool,
                          ea: (nat, OutEdge<E>) -> ElementAttributes) returns (text: string)
    ensures text == Join(EdgeLines(vs, directed, ea))
  {
    text := "";
    var u := 0;
    while u < |vs|
      invariant u <= |vs| && text == Join(EdgeLines(vs[..u], directed, ea))
    {
      assert vs[..u + 1][..u] == vs[..u] && vs[..u + 1][u] == vs[u];
      var row := WriteRow(u, vs[u].outs, directed, ea);
      JoinConcat(EdgeLines(vs[..u], directed, ea), RowLines(u, vs[u].outs, directed, ea));
      text := text + row;
      u := u + 1;
    }
    assert vs[..|vs|] == vs;
  }

  // The vertex loop of the attributed overload.
  method WriteVertices<V, E>(vs: seq<Vertex<V, E>>, na: (nat, Vertex<V, E>) -> ElementAttributes)
    returns (text: string)
    ensures text == Join(VertexLines(vs, na))
  {
    text := "";
    var v := 0;
    while v < |vs|
      invariant v <= |vs| && text == Join(VertexLines(vs[..v], na))
    {
      ghost var before := VertexLines(vs[..v], na);
      assert vs[..v + 1][..v] == vs[..v] && vs[..v + 1][v] == vs[v];
      var a := na(v, vs[v]);
      var any := Any(a);
      if vs[v].outs == [] || any {
        assert VertexLines(vs[..v + 1], na) == before + [NodeLine(v, a)];
        JoinAppend(before, NodeLine(v, a));
        text := text + NodeLine(v, a);
      } else {
        assert VertexLines(vs[..v + 1], na) == before;
      }
      v := v + 1;
    }
    assert vs[..|vs|] == vs;
  }

  // Writes the header and the opening brace.
  method WriteHeader(directed: bool) returns (text: string, ghost lines: seq<string>)
    ensures lines == [Header(directed), Open] && text == Join(lines)
  {
    JoinAppend([], Header(directed));
    assert [] + [Header(directed)] == [Header(directed)];
    JoinAppend([Header(directed)], Open);
    text := Header(directed) + Open;
    lines := [Header(directed), Open];
  }

  // to_dot(stream, graph): the text the simple overload writes.
  method PlainToDot<V, E>(g: Graph<V, E>) returns (text: string)
    ensures text == Join(PlainLines(g.vertices, g.directed))
  {
    var vs := g.vertices;
    ghost var lines;
    text, lines := WriteHeader(g.directed);
    var v := 0;
    while v < |vs|
      invariant v <= |vs| && text == Join(lines + PlainVertexLines(v))
    {
      JoinAppend(lines + PlainVertexLines(v), NodeLine(v, NoAttributes));
      assert lines + PlainVertexLines(v + 1) == lines + PlainVertexLines(v) + [NodeLine(v, NoAttributes)];
      text := text + NodeLine(v, NoAttributes);
      v := v + 1;
    }
    lines := lines + PlainVertexLines(|vs|);
    var edges := WriteEdges(vs, g.directed, NoEdgeAttributes());
    JoinConcat(lines, EdgeLines(vs, g.directed, NoEdgeAttributes()));
    lines := lines + EdgeLines(vs, g.directed, NoEdgeAttributes());
    text := text + edges;
    JoinAppend(lines, Close);
    text := text + Close;
  }

  // Appends a block of lines already written out as text.
  lemma AppendBlock(text: string, lines: seq<string>, block: seq<string>, blockText: string)
    requires text == Join(lines) && blockText == Join(block)
    ensures text + blockText == Join(lines + block)
  {
    JoinConcat(lines, block);
  }

  // "\tnode [...]\n" or "\tedge [...]\n", written only when an attribute is set.
  method WriteGlobal(kind: string, a: ElementAttributes, node: bool) returns (text: string)
    ensures text == Join(GlobalLines(kind, a, node))
  {
    text := "";
    if Any(a) {
      text := "\t" + kind + " [" + AttributesText(a, node) + "]\n";
      JoinAppend([], text);
      assert [] + [text] == GlobalLines(kind, a, node);
    }
  }

  // to_dot(stream, graph, graph attributes, node attributes, edge attributes,
  // node attributes of a vertex, edge attributes of a record).
  method ToDot<V, E>(g: Graph<V, E>, ga: GraphAttributes, gna: ElementAttributes, gea: ElementAttributes,
                     na: (nat, Vertex<V, E>) -> ElementAttributes,
                     ea: (nat, OutEdge<E>) -> ElementAttributes) returns (text: string)
    ensures text == Join(DotLines(g.vertices, g.directed, ga, gna, gea, na, ea))
  {
    var vs := g.vertices;
    ghost var lines;
    text, lines := WriteHeader(g.directed);
    AppendBlock(text, lines, GraphAttributeLines(ga), Join(GraphAttributeLines(ga)));
    text, lines := text + Join(GraphAttributeLines(ga)), lines + GraphAttributeLines(ga);
    var nodeGlobal := WriteGlobal("node", gna, true);
    AppendBlock(text, lines, GlobalLines("node", gna, true), nodeGlobal);
    text, lines := text + nodeGlobal, lines + GlobalLines("node", gna, true);
    var edgeGlobal := WriteGlobal("edge", gea, false);
    AppendBlock(text, lines, GlobalLines("edge", gea, false), edgeGlobal);
    text, lines := text + edgeGlobal, lines + GlobalLines("edge", gea, false);
    var nodes := WriteVertices(vs, na);
    AppendBlock(text, lines, VertexLines(vs, na), nodes);
    text, lines := text + nodes, lines + VertexLines(vs, na);
    var edges := WriteEdges(vs, g.directed, ea);
    AppendBlock(text, lines, EdgeLines(vs, g.directed, ea), edges);
    text, lines := text + edges, lines + EdgeLines(vs, g.directed, ea);
    JoinAppend(lines, Close);
    text := text + Close;
  }
}
