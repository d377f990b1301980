/** SQL literals as the converter prints them, and as PostgreSQL reads them: abieos_sql_converter.cpp. */
module SqlText {
  import opened Bytes
  import opened Store

  type Text = Bytes

  const QUOTE: byte := 34
  const COMMA: byte := 44
  const OPEN: byte := 40
  const CLOSE: byte := 41
  const SLASH: byte := 92
  const OPEN_BRACE: byte := 123
  const CLOSE_BRACE: byte := 125

  /** \N, the null of the COPY text format. */
  const NULL_FIELD: Text := [92, 78]

  // ---------- table fields ----------

  /** A backslash and three octal digits. */
  function OctalText(c: byte): (r: Text)
    ensures |r| == 4 && r[0] == SLASH && IsOctal(r[1]) && IsOctal(r[2]) && IsOctal(r[3])
    ensures Octal(r[1], r[2], r[3]) == c
  {
    OctalDigits(c);
    [SLASH, 48 + c / 64, 48 + c / 8 % 8, 48 + c % 8]
  }

  function EscapeChar(c: byte): (r: Text)
    ensures 1 <= |r|
  {
    if c == 8 then [SLASH, 98]
    else if c == 12 then [SLASH, 102]
    else if c == 10 then [SLASH, 110]
    else if c == 13 then [SLASH, 114]
    else if c == 9 then [SLASH, 116]
    else if c == 11 then [SLASH, 118]
    else if c == SLASH then [SLASH, SLASH]
    else if c < 32 || c > 126 then OctalText(c)
    else [c]
  }

  function EscapeTable(s: Text): Text
  {
    if s == [] then [] else EscapeTable(s[..|s| - 1]) + EscapeChar(s[|s| - 1])
  }

  method EscapeTableField(s: Text) returns (r: Text)
    ensures r == EscapeTable(s)
  {
    r := [];
    for i := 0 to |s|
      invariant r == EscapeTable(s[..i])
    {
      assert s[..i + 1][..i] == s[..i];
      r := r + EscapeChar(s[i]);
    }
    assert s[..|s|] == s;
  }

  predicate IsOctal(c: byte) { 48 <= c <= 55 }

  /** What a character after a backslash stands for. */
  function Control(c: byte): byte
  {
    if c == 98 then 8 else if c == 102 then 12 else if c == 110 then 10
    else if c == 114 then 13 else if c == 116 then 9 else if c == 118 then 11 else c
  }

  function Octal(a: int, b: int, c: int): byte
  {
    ((a - 48) * 64 + (b - 48) * 8 + (c - 48)) % 256
  }

  /** COPY's unescaping: one to three octal digits, a control character, or the character itself. */
  function Unescape(t: Text): Text
  {
    if t == [] then []
    else if t[0] != SLASH || |t| == 1 then [t[0]] + Unescape(t[1..])
    else if !IsOctal(t[1]) then [Control(t[1])] + Unescape(t[2..])
    else if |t| == 2 || !IsOctal(t[2]) then [Octal(48, 48, t[1])] + Unescape(t[2..])
    else if |t| == 3 || !IsOctal(t[3]) then [Octal(48, t[1], t[2])] + Unescape(t[3..])
    else [Octal(t[1], t[2], t[3])] + Unescape(t[4..])
  }

  lemma UnescapePlain(c: byte, rest: Text)
    requires c != SLASH
    ensures Unescape([c] + rest) == [c] + Unescape(rest)
  {
    assert ([c] + rest)[1..] == rest;
  }

  lemma UnescapeControl(x: byte, rest: Text)
    requires !IsOctal(x)
    ensures Unescape([SLASH, x] + rest) == [Control(x)] + Unescape(rest)
  {
    assert ([SLASH, x] + rest)[2..] == rest;
  }

  lemma UnescapeOctal(a: byte, b: byte, c: byte, rest: Text)
    requires IsOctal(a) && IsOctal(b) && IsOctal(c)
    ensures Unescape([SLASH, a, b, c] + rest) == [Octal(a, b, c)] + Unescape(rest)
  {
    hide Octal;
    assert ([SLASH, a, b, c] + rest)[4..] == rest;
  }

  /** One escaped character is read back as itself. */
  lemma UnescapeChar(c: byte, rest: Text)
    ensures Unescape(EscapeChar(c) + rest) == [c] + Unescape(rest)
  {
    hide Unescape, OctalText, Octal;
    var e := EscapeChar(c);
    if e == [c] {
      UnescapePlain(c, rest);
    } else if |e| == 2 {
      UnescapeControl(e[1], rest);
    } else {
      assert e == [SLASH, e[1], e[2], e[3]];
      UnescapeOctal(e[1], e[2], e[3], rest);
    }
  }

  lemma OctalDigits(c: byte)
    ensures c / 64 * 64 + c / 8 % 8 * 8 + c % 8 == c && c / 64 < 4
  {
    assert c / 8 / 8 == c / 64;
  }

  lemma {:induction false} EscapeTableFirst(s: Text)
    requires s != []
    ensures EscapeTable(s) == EscapeChar(s[0]) + EscapeTable(s[1..])
  {
    hide EscapeChar;
    var n := |s| - 1;
    if n == 0 {
      assert s[..0] == [] && s[1..] == [] && EscapeTable(s[..0]) == [];
    } else {
      EscapeTableFirst(s[..n]);
      var a, m, z := EscapeChar(s[0]), EscapeTable(s[1..][..n - 1]), EscapeChar(s[n]);
      assert s[..n][1..] == s[1..][..n - 1] && s[..n][0] == s[0] && s[1..][n - 1] == s[n];
      assert EscapeTable(s[1..]) == m + z;
      assert EscapeTable(s) == (a + m) + z == a + (m + z);
    }
  }

  /** COPY reads back what was escaped. */
  lemma {:induction false} UnescapeEscape(s: Text)
    ensures Unescape(EscapeTable(s)) == s
  {
    hide EscapeChar;
    if s != [] {
      EscapeTableFirst(s);
      UnescapeChar(s[0], EscapeTable(s[1..]));
      UnescapeEscape(s[1..]);
      assert s == [s[0]] + s[1..];
    }
  }

  lemma EscapeCharPrintable(c: byte)
    ensures forall x :: x in EscapeChar(c) ==> 32 <= x <= 126
    ensures EscapeChar(c)[0] == SLASH ==> |EscapeChar(c)| > 1 && EscapeChar(c)[1] != 78
  {
    hide OctalText, Octal;
    if |EscapeChar(c)| == 4 {
      var e := OctalText(c);
      assert EscapeChar(c) == [e[0], e[1], e[2], e[3]];
    }
  }

  /** No tab or line end is left to end a field, and no field looks like a null. */
  lemma {:induction false} EscapedIsOneField(s: Text)
    ensures forall c :: c in EscapeTable(s) ==> 32 <= c <= 126
    ensures EscapeTable(s) != NULL_FIELD
  {
    hide EscapeChar;
    if s != [] {
      EscapedIsOneField(s[..|s| - 1]);
      EscapeCharPrintable(s[|s| - 1]);
      EscapeTableFirst(s);
      EscapeCharPrintable(s[0]);
      var e := EscapeChar(s[0]);
      assert EscapeTable(s)[0] == e[0] && (|e| > 1 ==> EscapeTable(s)[1] == e[1]);
    }
  }

  /** Nothing is escaped without need: printable text without backslashes stays as it is. */
  lemma {:induction false} PlainStays(s: Text)
    requires forall i :: 0 <= i < |s| ==> 32 <= s[i] <= 126 && s[i] != SLASH
    ensures EscapeTable(s) == s
  {
    if s != [] {
      PlainStays(s[..|s| - 1]);
      assert s == s[..|s| - 1] + [s[|s| - 1]];
    }
  }

  // ---------- fields of composites and arrays ----------

  function QuoteChar(c: byte): Text
  {
    if c == SLASH || c == QUOTE then [SLASH, c] else [c]
  }

  function Quote(s: Text): Text
  {
    if s == [] then [] else Quote(s[..|s| - 1]) + QuoteChar(s[|s| - 1])
  }

  function EscapeComposite(s: Text): Text
  {
    [QUOTE] + Quote(s) + [QUOTE]
  }

  method EscapeCompositeField(elem: Text) returns (r: Text)
    ensures r == EscapeComposite(elem)
  {
    r := [QUOTE];
    for i := 0 to |elem|
      invariant r == [QUOTE] + Quote(elem[..i])
    {
      assert elem[..i + 1][..i] == elem[..i];
      if elem[i] == SLASH || elem[i] == QUOTE {
        r := r + [SLASH];
      }
      r := r + [elem[i]];
    }
    assert elem[..|elem|] == elem;
    r := r + [QUOTE];
  }

  /** Only quotes and backslashes get a backslash. */
  lemma {:induction false} PlainIsQuoted(s: Text)
    requires forall i :: 0 <= i < |s| ==> s[i] != SLASH && s[i] != QUOTE
    ensures EscapeComposite(s) == [QUOTE] + s + [QUOTE]
  {
    if s != [] {
      PlainIsQuoted(s[..|s| - 1]);
      assert Quote(s[..|s| - 1]) == EscapeComposite(s[..|s| - 1])[1..|s|];
      assert EscapeComposite(s[..|s| - 1])[1..|s|] == s[..|s| - 1];
      assert s == s[..|s| - 1] + [s[|s| - 1]];
    }
  }

  // ---------- reading a composite or an array ----------

  /** One item up to an unquoted comma or closing character: its text, and what follows. A backslash takes the next
      character; in composites a doubled quote is a quote. */
  function ScanItem(t: Text, close: byte, quoted: bool, got: Text): (r: Option<(Text, Text)>)
    ensures r.Some? ==> |r.value.1| <= |t| && r.value.1 != [] && (r.value.1[0] == COMMA || r.value.1[0] == close)
    decreases |t|
  {
    if t == [] then None
    else if t[0] == SLASH then (if |t| == 1 then None else ScanItem(t[2..], close, quoted, got + [t[1]]))
    else if quoted then
      if t[0] != QUOTE then ScanItem(t[1..], close, true, got + [t[0]])
      else if close == CLOSE && |t| > 1 && t[1] == QUOTE then ScanItem(t[2..], close, true, got + [QUOTE])
      else ScanItem(t[1..], close, false, got)
    else if t[0] == COMMA || t[0] == close then Some((got, t))
    else if t[0] == QUOTE then ScanItem(t[1..], close, true, got)
    else ScanItem(t[1..], close, false, got + [t[0]])
  }

  predicate IsNullWord(t: Text)
  {
    |t| == 4 && (t[0] == 78 || t[0] == 110) && (t[1] == 85 || t[1] == 117) && (t[2] == 76 || t[2] == 108)
      && (t[3] == 76 || t[3] == 108)
  }

  /** The items up to the closing character, which must end the text. Null is nothing at all in a composite, and the
      bare word in an array, where nothing at all is an error. */
  function ReadItems(t: Text, close: byte): (r: Option<seq<Option<Text>>>)
    decreases |t|
  {
    if t == [] then None
    else if t[0] == COMMA || t[0] == close then
      if close == CLOSE_BRACE then None
      else if t[0] == close then (if |t| == 1 then Some([None]) else None)
      else
        var rest := ReadItems(t[1..], close);
        if rest.None? then None else Some([None] + rest.value)
    else
      var item := ScanItem(t, close, false, []);
      if item.None? then None else
        var (text, after) := item.value;
        var value := if close == CLOSE_BRACE && t[0] != QUOTE && IsNullWord(text) then None else Some(text);
        if after[0] == COMMA then
          var rest := ReadItems(after[1..], close);
          if rest.None? then None else Some([value] + rest.value)
        else if |after| == 1 then Some([value])
        else None
  }

  function ReadRow(t: Text): Option<seq<Option<Text>>>
  {
    if t == [] || t[0] != OPEN then None else ReadItems(t[1..], CLOSE)
  }

  function ReadArray(t: Text): Option<seq<Option<Text>>>
  {
    if t == [] || t[0] != OPEN_BRACE then None
    else if t[1..] == [CLOSE_BRACE] then Some([])
    else ReadItems(t[1..], CLOSE_BRACE)
  }

  // ---------- printing a composite or an array ----------

  /** An element as it is printed: nothing, a bare word, or quoted text. */
  datatype Item = Empty | Bare(text: Text) | Quoted(text: Text)

  function ItemText(i: Item): Text
  {
    match i
    case Empty => []
    case Bare(t) => t
    case Quoted(t) => EscapeComposite(t)
  }

  /** What a reader should make of it. */
  function ItemValue(i: Item): Option<Text>
  {
    match i
    case Empty => None
    case Bare(t) => Some(t)
    case Quoted(t) => Some(t)
  }

  /** separated_list with commas. */
  function Join(items: seq<Item>): Text
  {
    if items == [] then []
    else if |items| == 1 then ItemText(items[0])
    else ItemText(items[0]) + [COMMA] + Join(items[1..])
  }

  predicate IsWordChar(c: byte)
  {
    48 <= c <= 58 || 65 <= c <= 90 || 97 <= c <= 122 || c == 43 || c == 45 || c == 46 || c == 95
  }

  /** Numbers, booleans, timestamps and the like, which are printed without quotes. */
  predicate IsWord(t: Text)
  {
    t != [] && !IsNullWord(t) && forall c :: c in t ==> IsWordChar(c)
  }

  predicate ItemOk(i: Item, close: byte)
  {
    match i
    case Empty => close == CLOSE
    case Bare(t) => IsWord(t)
    case Quoted(_) => true
  }

  lemma {:induction false} QuoteFirst(s: Text)
    requires s != []
    ensures Quote(s) == QuoteChar(s[0]) + Quote(s[1..])
  {
    hide QuoteChar;
    var n := |s| - 1;
    if n == 0 {
      assert s[..0] == [] && s[1..] == [] && Quote(s[..0]) == [];
    } else {
      QuoteFirst(s[..n]);
      var a, m, z := QuoteChar(s[0]), Quote(s[1..][..n - 1]), QuoteChar(s[n]);
      assert s[..n][1..] == s[1..][..n - 1] && s[..n][0] == s[0] && s[1..][n - 1] == s[n];
      assert Quote(s[1..]) == m + z;
      assert Quote(s) == (a + m) + z == a + (m + z);
    }
  }

  predicate Delimited(rest: Text, close: byte)
  {
    rest != [] && (rest[0] == COMMA || rest[0] == close)
  }

  lemma ScanQuotedChar(c: byte, rest: Text, close: byte, got: Text)
    ensures ScanItem(QuoteChar(c) + rest, close, true, got) == ScanItem(rest, close, true, got + [c])
  {
    var q := QuoteChar(c);
    assert (q + rest)[|q|..] == rest;
  }

  /** Quoted text up to its closing quote. */
  lemma {:induction false} ScanQuoted(s: Text, rest: Text, close: byte, got: Text)
    requires Delimited(rest, close) && close != QUOTE && close != SLASH
    ensures ScanItem(Quote(s) + [QUOTE] + rest, close, true, got) == Some((got + s, rest))
  {
    hide QuoteChar;
    if s == [] {
      assert Quote(s) + [QUOTE] + rest == [QUOTE] + rest && ([QUOTE] + rest)[1..] == rest && got + s == got;
    } else {
      QuoteFirst(s);
      var tail := Quote(s[1..]) + [QUOTE] + rest;
      assert Quote(s) + [QUOTE] + rest == QuoteChar(s[0]) + tail;
      ScanQuotedChar(s[0], tail, close, got);
      ScanQuoted(s[1..], rest, close, got + [s[0]]);
      assert got + [s[0]] + s[1..] == got + s;
    }
  }

  lemma {:induction false} ScanBare(w: Text, rest: Text, close: byte, got: Text)
    requires Delimited(rest, close) && (close == CLOSE || close == CLOSE_BRACE) && forall c :: c in w ==> IsWordChar(c)
    ensures ScanItem(w + rest, close, false, got) == Some((got + w, rest))
  {
    if w == [] {
      assert w + rest == rest && got + w == got;
    } else {
      assert w[0] in w && (w + rest)[0] == w[0] && (w + rest)[1..] == w[1..] + rest;
      ScanBare(w[1..], rest, close, got + [w[0]]);
      assert got + [w[0]] + w[1..] == got + w;
    }
  }

  /** One printed item is read back, whatever follows it. */
  lemma ScanPrinted(i: Item, rest: Text, close: byte)
    requires ItemOk(i, close) && !i.Empty? && Delimited(rest, close) && (close == CLOSE || close == CLOSE_BRACE)
    ensures ScanItem(ItemText(i) + rest, close, false, []) == Some((i.text, rest))
    ensures ItemText(i) != [] && ItemText(i)[0] != COMMA && ItemText(i)[0] != close
    ensures ItemText(i)[0] == QUOTE <==> i.Quoted?
  {
    hide Quote;
    match i
    case Bare(w) =>
      assert w[0] in w;
      ScanBare(w, rest, close, []);
      assert [] + w == w;
    case Quoted(t) =>
      var text := EscapeComposite(t) + rest;
      assert text[1..] == Quote(t) + [QUOTE] + rest;
      ScanQuoted(t, rest, close, []);
      assert [] + t == t;
  }

  function ItemValues(items: seq<Item>): (r: seq<Option<Text>>)
    ensures |r| == |items|
  {
    if items == [] then [] else [ItemValue(items[0])] + ItemValues(items[1..])
  }

  /** Reading one item and then the rest. */
  lemma ReadOne(i: Item, more: Text, close: byte)
    requires ItemOk(i, close) && (close == CLOSE || close == CLOSE_BRACE)
    ensures ReadItems(ItemText(i) + [close], close) == Some([ItemValue(i)])
    ensures ReadItems(ItemText(i) + ([COMMA] + more), close)
         == (var rest := ReadItems(more, close); if rest.None? then None else Some([ItemValue(i)] + rest.value))
  {
    hide ScanItem, IsWord;
    if i.Empty? {
      assert ItemText(i) + [close] == [close] && ItemText(i) + ([COMMA] + more) == [COMMA] + more;
      assert ([COMMA] + more)[1..] == more;
    } else {
      ScanPrinted(i, [close], close);
      ScanPrinted(i, [COMMA] + more, close);
      NotNull(i, close);
      assert ([COMMA] + more)[1..] == more;
    }
  }

  lemma NotNull(i: Item, close: byte)
    requires ItemOk(i, close) && !i.Empty?
    ensures i.Bare? ==> !IsNullWord(i.text)
  {
  }

  /** A printed list is read back item by item. */
  lemma {:induction false} ReadJoined(items: seq<Item>, close: byte)
    requires items != [] && (close == CLOSE || close == CLOSE_BRACE) && forall i :: 0 <= i < |items| ==>
      ItemOk(items[i], close)
    ensures ReadItems(Join(items) + [close], close) == Some(ItemValues(items))
  {
    hide ReadItems, ItemText, ItemValue, ItemOk;
    if |items| == 1 {
      ReadOne(items[0], [], close);
      assert items[1..] == [] && ItemValues(items[1..]) == [];
      assert ItemValues(items) == [ItemValue(items[0])] + ItemValues(items[1..]) == [ItemValue(items[0])];
      assert Join(items) == ItemText(items[0]);
    } else {
      var more := Join(items[1..]) + [close];
      ReadOne(items[0], more, close);
      ReadJoined(items[1..], close);
      assert Join(items) + [close] == ItemText(items[0]) + ([COMMA] + more);
    }
  }

  // ---------- values ----------

  /** The types of SQL values: printed bare, printed quoted, composites of columns, and arrays. */
  datatype Type = Word | Str | Row(cols: seq<Type>) | List(elem: Type)

  datatype Value = Null | Leaf(text: Text) | Columns(vals: seq<Value>) | Elements(vals: seq<Value>)

  /** The values that to_sql_value meets: arrays have no nulls and no arrays directly in them. */
  predicate Fits(v: Value, ty: Type)
    decreases ty, 0
  {
    match ty
    case Word => v.Null? || (v.Leaf? && IsWord(v.text))
    case Str => v.Null? || v.Leaf?
    case Row(cols) => v.Null? || (v.Columns? && AllFit(v.vals, cols) && cols != [])
    case List(elem) => v.Null? || (v.Elements? && !elem.List? && ElementsFit(v.vals, elem))
  }

  predicate AllFit(vals: seq<Value>, cols: seq<Type>)
    decreases cols, 0
  {
    |vals| == |cols| && (cols == [] || (Fits(vals[0], cols[0]) && AllFit(vals[1..], cols[1..])))
  }

  predicate ElementsFit(vals: seq<Value>, elem: Type)
    decreases elem, |vals| + 1
  {
    vals == [] || (!vals[0].Null? && Fits(vals[0], elem) && ElementsFit(vals[1..], elem))
  }

  /** to_sql_value in a composite: what it prints, as an item. */
  function ItemOf(v: Value, ty: Type): Item
    requires Fits(v, ty)
    decreases ty, 0
  {
    if v.Null? then Empty else
    match ty
    case Word => Bare(v.text)
    case Str => Quoted(v.text)
    case Row(cols) => Quoted([OPEN] + Join(ColumnItems(v.vals, cols)) + [CLOSE])
    case List(elem) => Quoted([OPEN_BRACE] + Join(ElementItems(v.vals, elem)) + [CLOSE_BRACE])
  }

  function ColumnItems(vals: seq<Value>, cols: seq<Type>): (r: seq<Item>)
    requires AllFit(vals, cols)
    ensures |r| == |cols|
    decreases cols, 0
  {
    if cols == [] then [] else [ItemOf(vals[0], cols[0])] + ColumnItems(vals[1..], cols[1..])
  }

  function ElementItems(vals: seq<Value>, elem: Type): (r: seq<Item>)
    requires ElementsFit(vals, elem)
    ensures |r| == |vals|
    decreases elem, |vals| + 1
  {
    if vals == [] then [] else [ItemOf(vals[0], elem)] + ElementItems(vals[1..], elem)
  }

  /** A type-directed reader of one item; None is malformed. */
  function Read(t: Option<Text>, ty: Type): Option<Value>
    decreases ty, 0
  {
    if t.None? then Some(Null) else
    match ty
    case Word => Some(Leaf(t.value))
    case Str => Some(Leaf(t.value))
    case Row(cols) =>
      var items := ReadRow(t.value);
      if items.None? then None else
        var vals := ReadColumns(items.value, cols);
        if vals.None? then None else Some(Columns(vals.value))
    case List(elem) =>
      var items := ReadArray(t.value);
      if items.None? then None else
        var vals := ReadElements(items.value, elem);
        if vals.None? then None else Some(Elements(vals.value))
  }

  function ReadColumns(items: seq<Option<Text>>, cols: seq<Type>): Option<seq<Value>>
    decreases cols, 0
  {
    if |items| != |cols| then None
    else if cols == [] then Some([])
    else
      var v := Read(items[0], cols[0]);
      var rest := ReadColumns(items[1..], cols[1..]);
      if v.None? || rest.None? then None else Some([v.value] + rest.value)
  }

  function ReadElements(items: seq<Option<Text>>, elem: Type): Option<seq<Value>>
    decreases elem, |items| + 1
  {
    if items == [] then Some([])
    else
      var v := Read(items[0], elem);
      var rest := ReadElements(items[1..], elem);
      if v.None? || rest.None? then None else Some([v.value] + rest.value)
  }

  lemma ReadRowText(items: seq<Item>)
    requires items != [] && forall i :: 0 <= i < |items| ==> ItemOk(items[i], CLOSE)
    ensures ReadRow([OPEN] + Join(items) + [CLOSE]) == Some(ItemValues(items))
  {
    hide ReadItems, Join, ItemOk;
    ReadJoined(items, CLOSE);
    assert ([OPEN] + Join(items) + [CLOSE])[1..] == Join(items) + [CLOSE];
  }

  lemma ReadArrayText(items: seq<Item>)
    requires forall i :: 0 <= i < |items| ==> ItemOk(items[i], CLOSE_BRACE)
    ensures ReadArray([OPEN_BRACE] + Join(items) + [CLOSE_BRACE]) == Some(ItemValues(items))
  {
    hide ReadItems, ItemOk;
    var t := [OPEN_BRACE] + Join(items) + [CLOSE_BRACE];
    assert t[1..] == Join(items) + [CLOSE_BRACE];
    if items != [] {
      ReadJoined(items, CLOSE_BRACE);
      JoinNotEmpty(items);
    }
  }

  lemma JoinNotEmpty(items: seq<Item>)
    requires items != [] && ItemOk(items[0], CLOSE_BRACE)
    ensures Join(items) != []
  {
  }

  /** What is printed for a value at any depth is read back as that value. */
  lemma {:induction false} ReadPrinted(v: Value, ty: Type)
    requires Fits(v, ty)
    ensures Read(ItemValue(ItemOf(v, ty)), ty) == Some(v)
    ensures ItemOk(ItemOf(v, ty), CLOSE) && (!v.Null? ==> ItemOk(ItemOf(v, ty), CLOSE_BRACE))
    decreases ty, 0
  {
    hide ReadRow, ReadArray, Join, IsWord;
    if !v.Null? {
      match ty
      case Word =>
      case Str =>
      case Row(cols) =>
        ReadPrintedColumns(v.vals, cols);
        ReadRowText(ColumnItems(v.vals, cols));
      case List(elem) =>
        ReadPrintedElements(v.vals, elem);
        ReadArrayText(ElementItems(v.vals, elem));
    }
  }

  lemma {:induction false} ReadPrintedColumns(vals: seq<Value>, cols: seq<Type>)
    requires AllFit(vals, cols)
    ensures ReadColumns(ItemValues(ColumnItems(vals, cols)), cols) == Some(vals)
    ensures forall i :: 0 <= i < |cols| ==> ItemOk(ColumnItems(vals, cols)[i], CLOSE)
    decreases cols, 0
  {
    hide Read, ItemOf, ItemOk, Fits;
    if cols != [] {
      ReadPrinted(vals[0], cols[0]);
      ReadPrintedColumns(vals[1..], cols[1..]);
      var items := ColumnItems(vals, cols);
      assert items[1..] == ColumnItems(vals[1..], cols[1..]);
      assert ItemValues(items)[1..] == ItemValues(items[1..]);
      assert vals == [vals[0]] + vals[1..];
    } else {
      assert ColumnItems(vals, cols) == [] && ItemValues([]) == [] && vals == [];
    }
  }

  lemma {:induction false} ReadPrintedElements(vals: seq<Value>, elem: Type)
    requires ElementsFit(vals, elem)
    ensures ReadElements(ItemValues(ElementItems(vals, elem)), elem) == Some(vals)
    ensures forall i :: 0 <= i < |vals| ==> ItemOk(ElementItems(vals, elem)[i], CLOSE_BRACE)
    decreases elem, |vals| + 1
  {
    hide Read, ItemOf, ItemOk, Fits;
    if vals != [] {
      ReadPrinted(vals[0], elem);
      ReadPrintedElements(vals[1..], elem);
      var items := ElementItems(vals, elem);
      assert items[1..] == ElementItems(vals[1..], elem);
      assert ItemValues(items)[1..] == ItemValues(items[1..]);
      assert vals == [vals[0]] + vals[1..];
    }
  }

  // ---------- the printer ----------

  /** to_sql_value for composites and arrays at the top of a table, and for anything inside them. */
  function Printed(v: Value, ty: Type, inTable: bool): Text
    requires Fits(v, ty)
  {
    if v.Null? then (if inTable then NULL_FIELD else [])
    else if inTable then EscapeTable(ItemOf(v, ty).text)
    else ItemText(ItemOf(v, ty))
  }

  method SqlValue(v: Value, ty: Type, inTable: bool) returns (r: Text)
    requires Fits(v, ty) && (inTable ==> ty.Row? || ty.List?)
    ensures r == Printed(v, ty, inTable)
    decreases ty, 0
  {
    hide EscapeTable, Quote, IsWord;
    if v.Null? {
      return if inTable then NULL_FIELD else [];
    }
    match ty
    case Word => r := v.text;
    case Str => r := EscapeCompositeField(v.text);
    case Row(cols) =>
      var inner := JoinColumns(v.vals, cols);
      r := Escape([OPEN] + inner + [CLOSE], inTable);
    case List(elem) =>
      var inner := JoinElements(v.vals, elem);
      r := Escape([OPEN_BRACE] + inner + [CLOSE_BRACE], inTable);
  }

  /** escape_field. */
  method Escape(t: Text, inTable: bool) returns (r: Text)
    ensures r == if inTable then EscapeTable(t) else EscapeComposite(t)
  {
    if inTable {
      r := EscapeTableField(t);
    } else {
      r := EscapeCompositeField(t);
    }
  }

  lemma {:induction false} JoinSnoc(items: seq<Item>, i: Item)
    ensures Join(items + [i]) == if items == [] then ItemText(i) else Join(items) + [COMMA] + ItemText(i)
  {
    hide ItemText;
    if items == [] {
      assert items + [i] == [i];
    } else {
      assert (items + [i])[1..] == items[1..] + [i];
      JoinSnoc(items[1..], i);
      if |items| > 1 {
        assert Join(items) + [COMMA] + ItemText(i) ==
          ItemText(items[0]) + [COMMA] + (Join(items[1..]) + [COMMA] + ItemText(i));
      }
    }
  }

  lemma {:induction false} ColumnAt(vals: seq<Value>, cols: seq<Type>, i: nat)
    requires AllFit(vals, cols) && i < |cols|
    ensures Fits(vals[i], cols[i]) && ColumnItems(vals, cols)[i] == ItemOf(vals[i], cols[i])
  {
    hide Fits, ItemOf;
    if i > 0 {
      ColumnAt(vals[1..], cols[1..], i - 1);
    }
  }

  lemma {:induction false} ElementAt(vals: seq<Value>, elem: Type, i: nat)
    requires ElementsFit(vals, elem) && i < |vals|
    ensures Fits(vals[i], elem) && ElementItems(vals, elem)[i] == ItemOf(vals[i], elem)
  {
    hide Fits, ItemOf;
    if i > 0 {
      ElementAt(vals[1..], elem, i - 1);
    }
  }

  method JoinColumns(vals: seq<Value>, cols: seq<Type>) returns (r: Text)
    requires AllFit(vals, cols)
    ensures r == Join(ColumnItems(vals, cols))
    decreases cols, 0
  {
    hide Fits, ItemOf, AllFit, Join, ItemText, ColumnItems;
    SameCount(vals, cols);
    ghost var items := ColumnItems(vals, cols);
    NoItems();
    r := [];
    for i := 0 to |cols|
      invariant r == Join(items[..i])
    {
      ColumnAt(vals, cols, i);
      var x := SqlValue(vals[i], cols[i], false);
      PrintedIsItem(vals[i], cols[i]);
      JoinSnoc(items[..i], items[i]);
      assert items[..i + 1] == items[..i] + [items[i]];
      r := if i == 0 then x else r + [COMMA] + x;
    }
    assert items[..|cols|] == items;
  }

  method JoinElements(vals: seq<Value>, elem: Type) returns (r: Text)
    requires ElementsFit(vals, elem)
    ensures r == Join(ElementItems(vals, elem))
    decreases elem, |vals| + 1
  {
    hide Fits, ItemOf, ElementsFit, Join, ItemText, ElementItems;
    ghost var items := ElementItems(vals, elem);
    NoItems();
    r := [];
    for i := 0 to |vals|
      invariant r == Join(items[..i])
    {
      ElementAt(vals, elem, i);
      var x := SqlValue(vals[i], elem, false);
      PrintedIsItem(vals[i], elem);
      JoinSnoc(items[..i], items[i]);
      assert items[..i + 1] == items[..i] + [items[i]];
      r := if i == 0 then x else r + [COMMA] + x;
    }
    assert items[..|vals|] == items;
  }

  lemma NoItems()
    ensures Join([]) == []
  {
  }

  lemma SameCount(vals: seq<Value>, cols: seq<Type>)
    requires AllFit(vals, cols)
    ensures |vals| == |cols|
  {
  }

  lemma PrintedIsItem(v: Value, ty: Type)
    requires Fits(v, ty)
    ensures Printed(v, ty, false) == ItemText(ItemOf(v, ty))
  {
  }

  /** A field of a row that COPY reads: null, or the text to be read as the column's type. */
  function ReadField(t: Text, ty: Type): Option<Value>
  {
    if t == NULL_FIELD then Some(Null) else Read(Some(Unescape(t)), ty)
  }

  /** PostgreSQL recovers exactly the value that was printed, composites and arrays within each other to any depth. */
  lemma FieldRoundTrip(v: Value, ty: Type)
    requires Fits(v, ty) && (ty.Row? || ty.List?)
    ensures ReadField(Printed(v, ty, true), ty) == Some(v)
    ensures forall c :: c in Printed(v, ty, true) ==> 32 <= c <= 126
  {
    hide EscapeTable, Unescape, Read, Join, ReadRow, ReadArray;
    if !v.Null? {
      var text := ItemOf(v, ty).text;
      EscapedIsOneField(text);
      UnescapeEscape(text);
      ReadPrinted(v, ty);
    }
  }
}
