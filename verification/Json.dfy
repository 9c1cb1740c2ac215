/** JSON values as Python's json module sees them (objects keep their key order), their
    serialised text, and the two structural reductions used before a message is cut. */
module Json {
  import opened Prelude

  predicate IsLiteralChar(c: char) {
    '0' <= c <= '9' || 'a' <= c <= 'z' || 'A' <= c <= 'Z' || c == '+' || c == '-' || c == '.'
  }

  /** Numbers begin with a digit or a sign, except for the words NaN and Infinity. */
  predicate StartsNumber(c: char) { '0' <= c <= '9' || c == '-' || c == 'N' || c == 'I' }

  predicate IsLiteral(s: string) {
    |s| >= 1 && StartsNumber(s[0]) && forall i :: 0 <= i < |s| ==> IsLiteralChar(s[i])
  }

  /** The text of a number. */
  type Literal = s: string | IsLiteral(s) witness "0"

  datatype Json =
    | Null
    | Bool(b: bool)
    | Num(literal: Literal)
    | Str(text: string)
    | Arr(items: seq<Json>)
    | Obj(fields: seq<Field>)

  datatype Field = Field(key: string, value: Json)

  // ------------------------------------------------------------ serialisation

  /** The separators passed to the serialiser: between items, and after a key. */
  datatype Separators = Separators(item: string, key: string)

  const COMPACT := Separators(",", ":")

  const SPACED := Separators(", ", ": ")

  function HexDigit(n: nat): char
    requires n < 16
  {
    "0123456789abcdef"[n]
  }

  function EscapeChar(c: char): string {
    if c == '"' then "\\\""
    else if c == '\\' then "\\\\"
    else if c == '\n' then "\\n"
    else if c == '\r' then "\\r"
    else if c == '\t' then "\\t"
    else if c == 8 as char then "\\b"
    else if c == 12 as char then "\\f"
    else if c < ' ' then "\\u00" + [HexDigit((c as int) / 16), HexDigit((c as int) % 16)]
    else [c]
  }

  function Escape(s: string): string {
    if s == "" then "" else EscapeChar(s[0]) + Escape(s[1..])
  }

  function Quote(s: string): string { "\"" + Escape(s) + "\"" }

  function Dumps(j: Json, sep: Separators): (r: string)
    ensures |r| >= 1
    decreases j
  {
    match j
    case Null => "null"
    case Bool(b) => if b then "true" else "false"
    case Num(literal) => literal
    case Str(text) => Quote(text)
    case Arr(items) => "[" + DumpsItems(items, sep) + "]"
    case Obj(fields) => "{" + DumpsFields(fields, sep) + "}"
  }

  function DumpsItems(items: seq<Json>, sep: Separators): string
    decreases items
  {
    if items == [] then ""
    else if |items| == 1 then Dumps(items[0], sep)
    else Dumps(items[0], sep) + sep.item + DumpsItems(items[1..], sep)
  }

  function DumpsField(f: Field, sep: Separators): string
    decreases f
  {
    Quote(f.key) + sep.key + Dumps(f.value, sep)
  }

  function DumpsFields(fields: seq<Field>, sep: Separators): string
    decreases fields
  {
    if fields == [] then ""
    else if |fields| == 1 then DumpsField(fields[0], sep)
    else DumpsField(fields[0], sep) + sep.item + DumpsFields(fields[1..], sep)
  }

  // ------------------------------------------------------------ reading

  /** What a reader finds at the front of a text, and the rest of the text. */
  datatype Found<T> = Found(value: T, rest: string) | Malformed

  function SkipSpace(s: string): (r: string)
    ensures |r| <= |s|
  {
    if s != "" && (s[0] == ' ' || s[0] == '\t' || s[0] == '\n' || s[0] == '\r') then SkipSpace(s[1..]) else s
  }

  function HexValue(c: char): int {
    if '0' <= c <= '9' then c as int - '0' as int
    else if 'a' <= c <= 'f' then c as int - 'a' as int + 10
    else if 'A' <= c <= 'F' then c as int - 'A' as int + 10
    else -1
  }

  /** The character behind a backslash and u; surrogates are not characters. */
  function ReadHex(s: string): Found<char> {
    if |s| < 4 || HexValue(s[0]) < 0 || HexValue(s[1]) < 0 || HexValue(s[2]) < 0 || HexValue(s[3]) < 0 then Malformed
    else
      var code := ((HexValue(s[0]) * 16 + HexValue(s[1])) * 16 + HexValue(s[2])) * 16 + HexValue(s[3]);
      if 0 <= code < 0xD800 || 0xE000 <= code < 0x1_0000 then Found(code as char, s[4..]) else Malformed
  }

  /** The character at the front of a string's inside. */
  function ReadChar(s: string): (r: Found<char>)
    requires s != ""
    ensures r.Found? ==> |r.rest| < |s|
  {
    if s[0] != '\\' then Found(s[0], s[1..])
    else if |s| == 1 then Malformed
    else
      match s[1]
      case '"' => Found('"', s[2..])
      case '\\' => Found('\\', s[2..])
      case '/' => Found('/', s[2..])
      case 'b' => Found(8 as char, s[2..])
      case 'f' => Found(12 as char, s[2..])
      case 'n' => Found('\n', s[2..])
      case 'r' => Found('\r', s[2..])
      case 't' => Found('\t', s[2..])
      case 'u' => ReadHex(s[2..])
      case _ => Malformed
  }

  /** A string behind its opening quote. */
  function ReadString(s: string): (r: Found<string>)
    ensures r.Found? ==> |r.rest| < |s|
    decreases |s|
  {
    if s == "" then Malformed
    else if s[0] == '"' then Found("", s[1..])
    else
      match ReadChar(s)
      case Malformed => Malformed
      case Found(c, rest) =>
        match ReadString(rest)
        case Malformed => Malformed
        case Found(text, rest') => Found([c] + text, rest')
  }

  /** How long the run of literal characters at the front is. */
  function LiteralLength(s: string): (n: nat)
    ensures n <= |s| && forall i :: 0 <= i < n ==> IsLiteralChar(s[i])
  {
    if s != "" && IsLiteralChar(s[0]) then LiteralLength(s[1..]) + 1 else 0
  }

  function ReadValue(s: string): (r: Found<Json>)
    ensures r.Found? ==> |r.rest| < |s|
    decreases |s|, 0
  {
    var t := SkipSpace(s);
    if t == "" then Malformed
    else if t[0] == '"' then
      match ReadString(t[1..])
      case Malformed => Malformed
      case Found(text, rest) => Found(Str(text), rest)
    else if t[0] == '[' then
      var u := SkipSpace(t[1..]);
      if u != "" && u[0] == ']' then Found(Arr([]), u[1..])
      else
        match ReadItems(u)
        case Malformed => Malformed
        case Found(items, rest) => Found(Arr(items), rest)
    else if t[0] == '{' then
      var u := SkipSpace(t[1..]);
      if u != "" && u[0] == '}' then Found(Obj([]), u[1..])
      else
        match ReadFields(u)
        case Malformed => Malformed
        case Found(fields, rest) => Found(Obj(fields), rest)
    else if "null" <= t then Found(Null, t[4..])
    else if "true" <= t then Found(Bool(true), t[4..])
    else if "false" <= t then Found(Bool(false), t[5..])
    else if StartsNumber(t[0]) then Found(Num(t[..LiteralLength(t)]), t[LiteralLength(t)..])
    else Malformed
  }

  /** Items up to the closing bracket. */
  function ReadItems(s: string): (r: Found<seq<Json>>)
    ensures r.Found? ==> |r.rest| < |s|
    decreases |s|, 1
  {
    match ReadValue(s)
    case Malformed => Malformed
    case Found(j, rest) =>
      var t := SkipSpace(rest);
      if t != "" && t[0] == ']' then Found([j], t[1..])
      else if t != "" && t[0] == ',' then
        match ReadItems(t[1..])
        case Malformed => Malformed
        case Found(items, rest') => Found([j] + items, rest')
      else Malformed
  }

  function ReadField(s: string): (r: Found<Field>)
    ensures r.Found? ==> |r.rest| < |s|
    decreases |s|, 1
  {
    var t := SkipSpace(s);
    if t == "" || t[0] != '"' then Malformed
    else
      match ReadString(t[1..])
      case Malformed => Malformed
      case Found(key, rest) =>
        var u := SkipSpace(rest);
        if u == "" || u[0] != ':' then Malformed
        else
          match ReadValue(u[1..])
          case Malformed => Malformed
          case Found(j, rest') => Found(Field(key, j), rest')
  }

  /** Fields up to the closing brace. */
  function ReadFields(s: string): (r: Found<seq<Field>>)
    ensures r.Found? ==> |r.rest| < |s|
    decreases |s|, 2
  {
    match ReadField(s)
    case Malformed => Malformed
    case Found(f, rest) =>
      var t := SkipSpace(rest);
      if t != "" && t[0] == '}' then Found([f], t[1..])
      else if t != "" && t[0] == ',' then
        match ReadFields(t[1..])
        case Malformed => Malformed
        case Found(fields, rest') => Found([f] + fields, rest')
      else Malformed
  }

  /** The value a whole text stands for, by the grammar of RFC 8259 and the words NaN and Infinity. */
  function Read(s: string): Option<Json> {
    match ReadValue(s)
    case Malformed => None
    case Found(j, rest) => if SkipSpace(rest) == "" then Some(j) else None
  }

  // ------------------------------------------------------------ reading back what was serialised

  lemma ReadEscapedChar(c: char, more: string)
    ensures var e := EscapeChar(c); e != "" && e[0] != '"' && ReadChar(e + more) == Found(c, more)
  {
    var e := EscapeChar(c);
    var s := e + more;
    if c == '"' || c == '\\' || c == '\n' || c == '\r' || c == '\t' || c == 8 as char || c == 12 as char {
      assert s[2..] == more;
    } else if c < ' ' {
      var high, low := HexDigit((c as int) / 16), HexDigit((c as int) % 16);
      HexDigitValue((c as int) / 16);
      HexDigitValue((c as int) % 16);
      var hex := s[2..];
      assert hex == "00" + [high, low] + more;
      assert hex[..4] == "00" + [high, low] && hex[4..] == more;
      assert hex[0] == '0' && hex[1] == '0' && hex[2] == high && hex[3] == low;
      assert HexValue('0') == 0;
    } else {
      assert s[1..] == more;
    }
  }

  lemma HexDigitValue(n: nat)
    requires n < 16
    ensures HexValue(HexDigit(n)) == n
  {
  }

  lemma {:induction false} ReadEscaped(text: string, rest: string)
    ensures ReadString(Escape(text) + "\"" + rest) == Found(text, rest)
  {
    if text == "" {
      assert (Escape(text) + "\"" + rest)[1..] == rest;
    } else {
      hide ReadChar, EscapeChar;
      var c, more := text[0], Escape(text[1..]) + "\"" + rest;
      ReadEscaped(text[1..], rest);
      ReadEscapedChar(c, more);
      var s := EscapeChar(c) + more;
      Glue(EscapeChar(c), Escape(text[1..]), "\"", rest);
      Regroup(Escape(text[1..]), "\"", rest);
      assert Escape(text) + "\"" + rest == s;
      assert s[0] == EscapeChar(c)[0];
      assert [c] + text[1..] == text;
    }
  }

  lemma ReadQuoted(text: string, rest: string)
    ensures Quote(text) + rest != "" && (Quote(text) + rest)[0] == '"'
    ensures ReadString((Quote(text) + rest)[1..]) == Found(text, rest)
  {
    hide ReadString, Escape;
    ReadEscaped(text, rest);
    assert (Quote(text) + rest)[1..] == Escape(text) + "\"" + rest;
  }

  lemma {:induction false} ReadLiteral(s: string, rest: string)
    requires forall i :: 0 <= i < |s| ==> IsLiteralChar(s[i])
    requires rest == "" || !IsLiteralChar(rest[0])
    ensures LiteralLength(s + rest) == |s|
  {
    if s == "" {
      assert s + rest == rest;
    } else {
      assert (s + rest)[1..] == s[1..] + rest;
      ReadLiteral(s[1..], rest);
    }
  }

  predicate IsSpaceChar(c: char) { c == ' ' || c == '\t' || c == '\n' || c == '\r' }

  /** The separators in use: a comma or a colon and perhaps a space. */
  predicate Usual(sep: Separators) { sep == COMPACT || sep == SPACED }

  lemma SkipSeparator(sep: Separators, more: string)
    requires Usual(sep)
    ensures var t := SkipSpace(sep.item + more); t != "" && t[0] == ',' && SkipSpace(t[1..]) == SkipSpace(more)
    ensures var t := SkipSpace(sep.key + more); t != "" && t[0] == ':' && SkipSpace(t[1..]) == SkipSpace(more)
    ensures !IsLiteralChar((sep.item + more)[0]) && !IsLiteralChar((sep.key + more)[0])
  {
    assert ("," + more)[1..] == more && (":" + more)[1..] == more;
    assert (", " + more)[1..] == " " + more && (": " + more)[1..] == " " + more;
    assert (" " + more)[1..] == more;
  }

  lemma ReadSpaced(s: string, t: string)
    requires SkipSpace(s) == SkipSpace(t)
    ensures ReadValue(s) == ReadValue(t)
  {
  }

  lemma ItemsSpaced(s: string, t: string)
    requires SkipSpace(s) == SkipSpace(t)
    ensures ReadItems(s) == ReadItems(t)
  {
    ReadSpaced(s, t);
  }

  lemma FieldsSpaced(s: string, t: string)
    requires SkipSpace(s) == SkipSpace(t)
    ensures ReadFields(s) == ReadFields(t)
  {
  }

  /** A serialised value begins with none of the characters the reader passes over or ends at. */
  lemma DumpsStart(j: Json, sep: Separators, more: string)
    ensures var s := Dumps(j, sep) + more;
            s != "" && !IsSpaceChar(s[0]) && s[0] != ']' && s[0] != '}' && SkipSpace(s) == s
  {
    match j
    case Arr(items) => assert (Dumps(j, sep) + more)[0] == '[';
    case Obj(fields) => assert (Dumps(j, sep) + more)[0] == '{';
    case Str(text) => assert (Dumps(j, sep) + more)[0] == '"';
    case Num(literal) => assert (Dumps(j, sep) + more)[0] == literal[0];
    case Bool(b) => assert (Dumps(j, sep) + more)[0] == if b then 't' else 'f';
    case Null => assert (Dumps(j, sep) + more)[0] == 'n';
  }

  /** The reader finds a serialised value again, whatever follows it. */
  lemma {:induction false} ReadDumped(j: Json, sep: Separators, rest: string)
    requires Usual(sep) && (rest == "" || !IsLiteralChar(rest[0]))
    ensures ReadValue(Dumps(j, sep) + rest) == Found(j, rest)
    decreases j
  {
    DumpsStart(j, sep, rest);
    match j
    case Str(text) => ReadQuoted(text, rest);
    case Num(literal) => ReadNumber(literal, sep, rest);
    case Arr(items) =>
      ReadDumpedItems(items, sep, rest);
      ReadArray(items, sep, rest);
    case Obj(fields) =>
      ReadDumpedFields(fields, sep, rest);
      ReadObject(fields, sep, rest);
    case _ => ReadWord(j, sep, rest);
  }

  lemma ReadNumber(literal: Literal, sep: Separators, rest: string)
    requires rest == "" || !IsLiteralChar(rest[0])
    ensures ReadValue(Dumps(Num(literal), sep) + rest) == Found(Num(literal), rest)
  {
    var s := literal + rest;
    ReadLiteral(literal, rest);
    DumpsStart(Num(literal), sep, rest);
    assert s[0] == literal[0];
    assert s[..|literal|] == literal && s[|literal|..] == rest;
  }

  lemma ReadWord(j: Json, sep: Separators, rest: string)
    requires j.Null? || j.Bool?
    ensures ReadValue(Dumps(j, sep) + rest) == Found(j, rest)
  {
    var word := Dumps(j, sep);
    var s := word + rest;
    DumpsStart(j, sep, rest);
    assert s[..|word|] == word && s[|word|..] == rest;
    assert s[0] == word[0];
  }

  lemma ReadBracket(inner: string, items: seq<Json>, rest: string)
    requires SkipSpace(inner) == inner && inner != "" && inner[0] != ']' && ReadItems(inner) == Found(items, rest)
    ensures ReadValue("[" + inner) == Found(Arr(items), rest)
  {
    hide ReadItems;
    var s := "[" + inner;
    assert s[0] == '[' && s[1..] == inner && SkipSpace(s) == s;
  }

  lemma ReadBrace(inner: string, fields: seq<Field>, rest: string)
    requires SkipSpace(inner) == inner && inner != "" && inner[0] != '}' && ReadFields(inner) == Found(fields, rest)
    ensures ReadValue("{" + inner) == Found(Obj(fields), rest)
  {
    hide ReadFields;
    var s := "{" + inner;
    assert s[0] == '{' && s[1..] == inner && SkipSpace(s) == s;
  }

  lemma ReadNothing(rest: string)
    ensures ReadValue("[]" + rest) == Found(Arr([]), rest) && ReadValue("{}" + rest) == Found(Obj([]), rest)
  {
    var s, t := "[]" + rest, "{}" + rest;
    assert s[0] == '[' && s[1..] == "]" + rest && SkipSpace(s) == s;
    assert t[0] == '{' && t[1..] == "}" + rest && SkipSpace(t) == t;
    assert ("]" + rest)[1..] == rest && ("}" + rest)[1..] == rest;
  }

  lemma ContainerText(items: seq<Json>, fields: seq<Field>, sep: Separators, rest: string)
    ensures DumpsItems(items, sep) + "]" + rest == DumpsItems(items, sep) + ("]" + rest)
    ensures Dumps(Arr(items), sep) + rest == "[" + (DumpsItems(items, sep) + "]" + rest)
    ensures DumpsFields(fields, sep) + "}" + rest == DumpsFields(fields, sep) + ("}" + rest)
    ensures Dumps(Obj(fields), sep) + rest == "{" + (DumpsFields(fields, sep) + "}" + rest)
  {
    hide DumpsItems, DumpsFields;
  }

  lemma ReadArray(items: seq<Json>, sep: Separators, rest: string)
    requires items != [] ==> ReadItems(DumpsItems(items, sep) + "]" + rest) == Found(items, rest)
    ensures ReadValue(Dumps(Arr(items), sep) + rest) == Found(Arr(items), rest)
  {
    hide ReadValue, ReadItems;
    if items == [] {
      ReadNothing(rest);
      assert Dumps(Arr(items), sep) + rest == "[]" + rest;
    } else {
      hide DumpsItems;
      var inner := DumpsItems(items, sep) + "]" + rest;
      ItemsStart(items, sep, "]" + rest);
      ContainerText(items, [], sep, rest);
      ReadBracket(inner, items, rest);
    }
  }

  lemma ReadObject(fields: seq<Field>, sep: Separators, rest: string)
    requires fields != [] ==> ReadFields(DumpsFields(fields, sep) + "}" + rest) == Found(fields, rest)
    ensures ReadValue(Dumps(Obj(fields), sep) + rest) == Found(Obj(fields), rest)
  {
    hide ReadValue, ReadFields;
    if fields == [] {
      ReadNothing(rest);
      assert Dumps(Obj(fields), sep) + rest == "{}" + rest;
    } else {
      hide DumpsFields;
      var inner := DumpsFields(fields, sep) + "}" + rest;
      FieldsStart(fields, sep, "}" + rest);
      ContainerText([], fields, sep, rest);
      ReadBrace(inner, fields, rest);
    }
  }

  lemma ItemsStart(items: seq<Json>, sep: Separators, more: string)
    requires items != []
    ensures var s := DumpsItems(items, sep) + more; s != "" && SkipSpace(s) == s && s[0] != ']'
  {
    if |items| == 1 {
      DumpsStart(items[0], sep, more);
    } else {
      var tail := sep.item + DumpsItems(items[1..], sep) + more;
      DumpsStart(items[0], sep, tail);
      assert DumpsItems(items, sep) + more == Dumps(items[0], sep) + tail;
    }
  }

  lemma FieldsStart(fields: seq<Field>, sep: Separators, more: string)
    requires fields != []
    ensures var s := DumpsFields(fields, sep) + more; s != "" && SkipSpace(s) == s && s[0] != '}'
  {
    hide DumpsFields, DumpsField, Escape;
    var d := DumpsFields(fields, sep);
    FieldStart(fields[0], sep);
    if |fields| > 1 {
      FieldsText(fields, sep);
    } else {
      OneField(fields, sep);
    }
    assert d != "" && d[0] == '"';
    assert (d + more)[0] == '"';
  }

  lemma OneField(fields: seq<Field>, sep: Separators)
    requires |fields| == 1
    ensures DumpsFields(fields, sep) == DumpsField(fields[0], sep)
  {
  }

  lemma FieldStart(f: Field, sep: Separators)
    ensures DumpsField(f, sep) != "" && DumpsField(f, sep)[0] == '"'
  {
    hide Dumps, Escape;
    assert Quote(f.key)[0] == '"';
  }

  lemma {:induction false} ReadDumpedItems(items: seq<Json>, sep: Separators, rest: string)
    requires Usual(sep)
    ensures items != [] ==> ReadItems(DumpsItems(items, sep) + "]" + rest) == Found(items, rest)
    decreases items
  {
    hide ReadItems, ReadValue, Dumps;
    if |items| == 1 {
      ReadDumped(items[0], sep, "]" + rest);
      LastItem(items[0], sep, rest);
      assert items == [items[0]];
    } else if |items| > 1 {
      hide DumpsItems;
      var more := DumpsItems(items[1..], sep) + "]" + rest;
      ReadDumpedItems(items[1..], sep, rest);
      SkipSeparator(sep, more);
      ReadDumped(items[0], sep, sep.item + more);
      ItemBefore(items[0], items[1..], sep, Dumps(items[0], sep), more, rest);
      ItemsCons(items, sep, rest);
      assert items == [items[0]] + items[1..];
    }
  }

  lemma ItemsCons(items: seq<Json>, sep: Separators, rest: string)
    requires |items| > 1
    ensures DumpsItems(items, sep) + "]" + rest
         == Dumps(items[0], sep) + (sep.item + (DumpsItems(items[1..], sep) + "]" + rest))
  {
    hide Dumps, DumpsItems;
    var first, others := Dumps(items[0], sep), DumpsItems(items[1..], sep);
    ItemsText(items, sep);
    Glue(first, sep.item, others, "]" + rest);
    Regroup(first + sep.item + others, "]", rest);
    Regroup(others, "]", rest);
  }

  lemma ItemsText(items: seq<Json>, sep: Separators)
    requires |items| > 1
    ensures DumpsItems(items, sep) == Dumps(items[0], sep) + sep.item + DumpsItems(items[1..], sep)
  {
    hide Dumps;
  }

  lemma FieldsText(fields: seq<Field>, sep: Separators)
    requires |fields| > 1
    ensures DumpsFields(fields, sep) == DumpsField(fields[0], sep) + sep.item + DumpsFields(fields[1..], sep)
  {
    hide DumpsField;
  }

  lemma FieldsCons(fields: seq<Field>, sep: Separators, rest: string)
    requires |fields| > 1
    ensures DumpsFields(fields, sep) + "}" + rest
         == DumpsField(fields[0], sep) + (sep.item + (DumpsFields(fields[1..], sep) + "}" + rest))
  {
    hide DumpsField, DumpsFields;
    var first, others := DumpsField(fields[0], sep), DumpsFields(fields[1..], sep);
    FieldsText(fields, sep);
    Glue(first, sep.item, others, "}" + rest);
    Regroup(first + sep.item + others, "}", rest);
    Regroup(others, "}", rest);
  }

  lemma LastItem(j: Json, sep: Separators, rest: string)
    requires ReadValue(Dumps(j, sep) + ("]" + rest)) == Found(j, "]" + rest)
    ensures ReadItems(Dumps(j, sep) + "]" + rest) == Found([j], rest)
  {
    hide ReadValue, Dumps;
    Regroup(Dumps(j, sep), "]", rest);
    assert ("]" + rest)[0] == ']' && ("]" + rest)[1..] == rest;
  }

  lemma ItemBefore(j: Json, items: seq<Json>, sep: Separators, front: string, more: string, rest: string)
    requires Usual(sep)
    requires ReadItems(more) == Found(items, rest) && ReadValue(front + (sep.item + more)) == Found(j, sep.item + more)
    ensures ReadItems(front + (sep.item + more)) == Found([j] + items, rest)
  {
    SkipSeparator(sep, more);
    ItemsSpaced(SkipSpace(sep.item + more)[1..], more);
  }

  lemma FieldText(f: Field, sep: Separators, rest: string)
    ensures DumpsField(f, sep) + rest == Quote(f.key) + (sep.key + (Dumps(f.value, sep) + rest))
  {
    hide Dumps, Quote;
  }

  lemma ReadKeyed(s: string, key: string, behind: string, j: Json, rest: string)
    requires s != "" && s[0] == '"' && ReadString(s[1..]) == Found(key, behind)
    requires var u := SkipSpace(behind); u != "" && u[0] == ':' && ReadValue(u[1..]) == Found(j, rest)
    ensures ReadField(s) == Found(Field(key, j), rest)
  {
    hide ReadValue, ReadString;
    assert SkipSpace(s) == s;
  }

  lemma {:induction false} ReadDumpedField(f: Field, sep: Separators, rest: string)
    requires Usual(sep) && rest != "" && !IsLiteralChar(rest[0])
    ensures ReadField(DumpsField(f, sep) + rest) == Found(f, rest)
    decreases f
  {
    hide ReadField, ReadValue, ReadString, Dumps, DumpsField, Quote;
    var value := Dumps(f.value, sep) + rest;
    ReadDumped(f.value, sep, rest);
    ReadQuoted(f.key, sep.key + value);
    SkipSeparator(sep, value);
    ReadSpaced(SkipSpace(sep.key + value)[1..], value);
    FieldText(f, sep, rest);
    ReadKeyed(Quote(f.key) + (sep.key + value), f.key, sep.key + value, f.value, rest);
  }

  lemma {:induction false} ReadDumpedFields(fields: seq<Field>, sep: Separators, rest: string)
    requires Usual(sep)
    ensures fields != [] ==> ReadFields(DumpsFields(fields, sep) + "}" + rest) == Found(fields, rest)
    decreases fields
  {
    hide ReadFields, ReadField, DumpsField;
    if |fields| == 1 {
      ReadDumpedField(fields[0], sep, "}" + rest);
      LastField(fields[0], sep, rest);
      assert fields == [fields[0]];
    } else if |fields| > 1 {
      hide DumpsFields;
      var more := DumpsFields(fields[1..], sep) + "}" + rest;
      ReadDumpedFields(fields[1..], sep, rest);
      SkipSeparator(sep, more);
      ReadDumpedField(fields[0], sep, sep.item + more);
      FieldBefore(fields[0], fields[1..], sep, DumpsField(fields[0], sep), more, rest);
      FieldsCons(fields, sep, rest);
      assert fields == [fields[0]] + fields[1..];
    }
  }

  lemma LastField(f: Field, sep: Separators, rest: string)
    requires ReadField(DumpsField(f, sep) + ("}" + rest)) == Found(f, "}" + rest)
    ensures ReadFields(DumpsField(f, sep) + "}" + rest) == Found([f], rest)
  {
    hide ReadField, DumpsField;
    Regroup(DumpsField(f, sep), "}", rest);
    assert ("}" + rest)[0] == '}' && ("}" + rest)[1..] == rest;
  }

  lemma FieldBefore(f: Field, fields: seq<Field>, sep: Separators, front: string, more: string, rest: string)
    requires Usual(sep)
    requires ReadFields(more) == Found(fields, rest) && ReadField(front + (sep.item + more)) == Found(f, sep.item + more)
    ensures ReadFields(front + (sep.item + more)) == Found([f] + fields, rest)
  {
    SkipSeparator(sep, more);
    FieldsSpaced(SkipSpace(sep.item + more)[1..], more);
  }

  /** Serialising loses nothing: an independent reader gives back the value. */
  lemma ReadDumps(j: Json, sep: Separators)
    requires Usual(sep)
    ensures Read(Dumps(j, sep)) == Some(j)
  {
    ReadDumped(j, sep, "");
    assert Dumps(j, sep) + "" == Dumps(j, sep);
  }

  // ------------------------------------------------------------ pruning

  /** The values an object field is dropped for. */
  predicate IsEmpty(j: Json) {
    j == Null || j == Str("") || j == Arr([]) || j == Obj([])
  }

  function Prune(j: Json): Json
    decreases j
  {
    match j
    case Arr(items) => Arr(PruneItems(items))
    case Obj(fields) => Obj(PruneFields(fields))
    case _ => j
  }

  function PruneItems(items: seq<Json>): seq<Json>
    decreases items
  {
    if items == [] then []
    else if items[0].Null? then PruneItems(items[1..])
    else [Prune(items[0])] + PruneItems(items[1..])
  }

  function PruneFields(fields: seq<Field>): seq<Field>
    decreases fields
  {
    if fields == [] then []
    else if IsEmpty(fields[0].value) then PruneFields(fields[1..])
    else [Field(fields[0].key, Prune(fields[0].value))] + PruneFields(fields[1..])
  }

  /** No null anywhere below the root. */
  predicate NoNullBelow(j: Json)
    decreases j
  {
    match j
    case Arr(items) => NoNullItems(items)
    case Obj(fields) => NoNullFields(fields)
    case _ => true
  }

  predicate NoNullItems(items: seq<Json>)
    decreases items
  {
    items == [] || (!items[0].Null? && NoNullBelow(items[0]) && NoNullItems(items[1..]))
  }

  predicate NoNullFields(fields: seq<Field>)
    decreases fields
  {
    fields == [] || (!fields[0].value.Null? && NoNullBelow(fields[0].value) && NoNullFields(fields[1..]))
  }

  lemma {:induction false} PruneRemovesNulls(j: Json)
    ensures NoNullBelow(Prune(j))
    decreases j
  {
    match j
    case Arr(items) => PruneItemsRemovesNulls(items);
    case Obj(fields) => PruneFieldsRemovesNulls(fields);
    case _ =>
  }

  lemma {:induction false} PruneItemsRemovesNulls(items: seq<Json>)
    ensures NoNullItems(PruneItems(items))
    decreases items
  {
    if items != [] {
      PruneItemsRemovesNulls(items[1..]);
      PruneRemovesNulls(items[0]);
      assert !items[0].Null? ==> PruneItems(items)[1..] == PruneItems(items[1..]);
    }
  }

  lemma {:induction false} PruneFieldsRemovesNulls(fields: seq<Field>)
    ensures NoNullFields(PruneFields(fields))
    decreases fields
  {
    if fields != [] {
      PruneFieldsRemovesNulls(fields[1..]);
      PruneRemovesNulls(fields[0].value);
      assert !IsEmpty(fields[0].value) ==> PruneFields(fields)[1..] == PruneFields(fields[1..]);
    }
  }

  /** Pruning never lengthens the serialised form, for any separators. */
  lemma {:induction false} PruneShortens(j: Json, sep: Separators)
    ensures |Dumps(Prune(j), sep)| <= |Dumps(j, sep)|
    decreases j
  {
    match j
    case Arr(items) => PruneItemsShortens(items, sep);
    case Obj(fields) => PruneFieldsShortens(fields, sep);
    case _ =>
  }

  lemma {:induction false} PruneItemsShortens(items: seq<Json>, sep: Separators)
    ensures |DumpsItems(PruneItems(items), sep)| <= |DumpsItems(items, sep)|
    ensures |PruneItems(items)| <= |items|
    decreases items
  {
    if items != [] {
      PruneItemsShortens(items[1..], sep);
      PruneShortens(items[0], sep);
      assert PruneItems(items) != [] && !items[0].Null? ==> PruneItems(items)[1..] == PruneItems(items[1..]);
    }
  }

  lemma {:induction false} PruneFieldsShortens(fields: seq<Field>, sep: Separators)
    ensures |DumpsFields(PruneFields(fields), sep)| <= |DumpsFields(fields, sep)|
    ensures |PruneFields(fields)| <= |fields|
    decreases fields
  {
    if fields != [] {
      PruneFieldsShortens(fields[1..], sep);
      PruneShortens(fields[0].value, sep);
      assert !IsEmpty(fields[0].value) ==> PruneFields(fields)[1..] == PruneFields(fields[1..]);
    }
  }

  /** A scalar that means something, under the keys that lead to it. */
  datatype Leaf = Leaf(path: seq<string>, value: Json)

  function Under(key: string, leaves: seq<Leaf>): (r: seq<Leaf>)
    ensures |r| == |leaves|
  {
    if leaves == [] then [] else [Leaf([key] + leaves[0].path, leaves[0].value)] + Under(key, leaves[1..])
  }

  /** The scalars of a value in order, without nulls and empty strings. */
  function Leaves(j: Json): seq<Leaf>
    decreases j
  {
    match j
    case Arr(items) => LeavesOfItems(items)
    case Obj(fields) => LeavesOfFields(fields)
    case _ => if IsEmpty(j) then [] else [Leaf([], j)]
  }

  function LeavesOfItems(items: seq<Json>): seq<Leaf>
    decreases items
  {
    if items == [] then [] else Leaves(items[0]) + LeavesOfItems(items[1..])
  }

  function LeavesOfFields(fields: seq<Field>): seq<Leaf>
    decreases fields
  {
    if fields == [] then [] else Under(fields[0].key, Leaves(fields[0].value)) + LeavesOfFields(fields[1..])
  }

  /** Pruning loses no scalar that means something, moves none to another key, and reorders none. */
  lemma {:induction false} PruneKeepsLeaves(j: Json)
    ensures Leaves(Prune(j)) == Leaves(j)
    decreases j
  {
    match j
    case Arr(items) => PruneItemsKeepsLeaves(items);
    case Obj(fields) => PruneFieldsKeepsLeaves(fields);
    case _ =>
  }

  lemma {:induction false} PruneItemsKeepsLeaves(items: seq<Json>)
    ensures LeavesOfItems(PruneItems(items)) == LeavesOfItems(items)
    decreases items
  {
    if items != [] {
      PruneItemsKeepsLeaves(items[1..]);
      PruneKeepsLeaves(items[0]);
      assert !items[0].Null? ==> PruneItems(items)[1..] == PruneItems(items[1..]);
    }
  }

  lemma {:induction false} PruneFieldsKeepsLeaves(fields: seq<Field>)
    ensures LeavesOfFields(PruneFields(fields)) == LeavesOfFields(fields)
    decreases fields
  {
    if fields != [] {
      PruneFieldsKeepsLeaves(fields[1..]);
      PruneKeepsLeaves(fields[0].value);
      assert !IsEmpty(fields[0].value) ==> PruneFields(fields)[1..] == PruneFields(fields[1..]);
    }
  }

  /** Nothing is left that pruning would remove. */
  predicate Clean(j: Json)
    decreases j
  {
    match j
    case Arr(items) => CleanItems(items)
    case Obj(fields) => CleanFields(fields)
    case _ => true
  }

  predicate CleanItems(items: seq<Json>)
    decreases items
  {
    items == [] || (!items[0].Null? && Clean(items[0]) && CleanItems(items[1..]))
  }

  predicate CleanFields(fields: seq<Field>)
    decreases fields
  {
    fields == [] || (!IsEmpty(fields[0].value) && Clean(fields[0].value) && CleanFields(fields[1..]))
  }

  /** Pruning changes nothing exactly on clean values. */
  lemma {:induction false} PruneFixpoint(j: Json)
    ensures Prune(j) == j <==> Clean(j)
    decreases j
  {
    match j
    case Arr(items) => PruneItemsFixpoint(items);
    case Obj(fields) => PruneFieldsFixpoint(fields);
    case _ =>
  }

  lemma {:induction false} PruneItemsFixpoint(items: seq<Json>)
    ensures PruneItems(items) == items <==> CleanItems(items)
    ensures |PruneItems(items)| <= |items|
    decreases items
  {
    if items != [] {
      PruneItemsFixpoint(items[1..]);
      PruneFixpoint(items[0]);
      assert items == [items[0]] + items[1..];
      if !items[0].Null? {
        assert PruneItems(items)[1..] == PruneItems(items[1..]) && PruneItems(items)[0] == Prune(items[0]);
      }
    }
  }

  lemma {:induction false} PruneFieldsFixpoint(fields: seq<Field>)
    ensures PruneFields(fields) == fields <==> CleanFields(fields)
    ensures |PruneFields(fields)| <= |fields|
    decreases fields
  {
    if fields != [] {
      PruneFieldsFixpoint(fields[1..]);
      PruneFixpoint(fields[0].value);
      assert fields == [fields[0]] + fields[1..];
      if !IsEmpty(fields[0].value) {
        assert PruneFields(fields)[1..] == PruneFields(fields[1..]);
        assert PruneFields(fields)[0].value == Prune(fields[0].value);
      }
    }
  }

  /** A value that is not empty but becomes empty when it is pruned. */
  predicate Hollow(j: Json) {
    || (j.Arr? && j.items != [] && forall i :: 0 <= i < |j.items| ==> j.items[i].Null?)
    || (j.Obj? && j.fields != [] && forall i :: 0 <= i < |j.fields| ==> IsEmpty(j.fields[i].value))
  }

  /** No field that survives pruning, at any depth that survives, holds a hollow value. */
  predicate NoHollow(j: Json)
    decreases j, 0
  {
    match j
    case Arr(items) => NoHollowItems(items)
    case Obj(fields) => NoHollowFields(fields)
    case _ => true
  }

  predicate NoHollowItems(items: seq<Json>)
    decreases items, 0
  {
    items == [] || ((items[0].Null? || NoHollow(items[0])) && NoHollowItems(items[1..]))
  }

  predicate NoHollowFields(fields: seq<Field>)
    decreases fields, 0
  {
    fields == [] || (NoHollowValue(fields[0].value) && NoHollowFields(fields[1..]))
  }

  predicate NoHollowValue(v: Json)
    decreases v, 1
  {
    IsEmpty(v) || (!Hollow(v) && NoHollow(v))
  }

  lemma {:induction false} PrunedToNothing(items: seq<Json>, fields: seq<Field>)
    ensures PruneItems(items) == [] <==> forall i :: 0 <= i < |items| ==> items[i].Null?
    ensures PruneFields(fields) == [] <==> forall i :: 0 <= i < |fields| ==> IsEmpty(fields[i].value)
    decreases |items| + |fields|
  {
    if items != [] {
      PrunedToNothing(items[1..], fields);
      assert forall i :: 1 <= i < |items| ==> items[i] == items[1..][i - 1];
    } else if fields != [] {
      PrunedToNothing(items, fields[1..]);
      assert forall i :: 1 <= i < |fields| ==> fields[i] == fields[1..][i - 1];
    }
  }

  lemma HollowIsExact(j: Json)
    requires !IsEmpty(j)
    ensures IsEmpty(Prune(j)) <==> Hollow(j)
  {
    PrunedToNothing(if j.Arr? then j.items else [], if j.Obj? then j.fields else []);
  }

  /** What pruning leaves is clean exactly for values without hollow fields. */
  lemma {:induction false} PruneCleans(j: Json)
    ensures Clean(Prune(j)) <==> NoHollow(j)
    decreases j
  {
    match j
    case Arr(items) => PruneCleansItems(items);
    case Obj(fields) => PruneCleansFields(fields);
    case _ =>
  }

  lemma {:induction false} PruneCleansItems(items: seq<Json>)
    ensures CleanItems(PruneItems(items)) <==> NoHollowItems(items)
    decreases items
  {
    if items != [] {
      PruneCleansItems(items[1..]);
      if !items[0].Null? {
        PruneCleans(items[0]);
        assert PruneItems(items)[1..] == PruneItems(items[1..]);
      }
    }
  }

  lemma {:induction false} PruneCleansFields(fields: seq<Field>)
    ensures CleanFields(PruneFields(fields)) <==> NoHollowFields(fields)
    decreases fields
  {
    if fields != [] {
      PruneCleansFields(fields[1..]);
      if !IsEmpty(fields[0].value) {
        PruneCleans(fields[0].value);
        HollowIsExact(fields[0].value);
        assert PruneFields(fields)[1..] == PruneFields(fields[1..]);
      }
    }
  }

  /** Pruning makes one pass, and that is enough exactly for values without hollow fields. */
  lemma OnePassIsEnough(j: Json)
    ensures Prune(Prune(j)) == Prune(j) <==> NoHollow(j)
  {
    PruneFixpoint(Prune(j));
    PruneCleans(j);
  }

  /** An object whose only member is null becomes an empty object, which a second pass would remove. */
  lemma PruneIsOnePass()
    ensures var j := Obj([Field("a", Obj([Field("b", Null)]))]);
            Prune(j) == Obj([Field("a", Obj([]))]) && Prune(Prune(j)) == Obj([])
  {
    var inner: seq<Field> := [Field("b", Null)];
    assert PruneFields(inner) == [];
  }

  // ------------------------------------------------------------ summarising arrays

  function Decimal(n: nat): string {
    if n < 10 then ["0123456789"[n]] else Decimal(n / 10) + ["0123456789"[n % 10]]
  }

  function Omitted(n: nat): Json { Str("…+" + Decimal(n) + " more items") }

  predicate AllObjects(items: seq<Json>) { forall i :: 0 <= i < |items| ==> items[i].Obj? }

  function Summarise(j: Json, keep: nat): (r: Json)
    ensures j.Obj? <==> r.Obj?
    decreases j
  {
    match j
    case Arr(items) => Arr(Shorten(SummariseItems(items, keep), keep))
    case Obj(fields) => Obj(SummariseFields(fields, keep))
    case _ => j
  }

  /** A long array of objects keeps its first items and a note on how many were left out. */
  function Shorten(items: seq<Json>, keep: nat): seq<Json> {
    if |items| > keep && AllObjects(items) then items[..keep] + [Omitted(|items| - keep)] else items
  }

  function SummariseItems(items: seq<Json>, keep: nat): (r: seq<Json>)
    ensures |r| == |items|
    decreases items
  {
    if items == [] then [] else [Summarise(items[0], keep)] + SummariseItems(items[1..], keep)
  }

  function SummariseFields(fields: seq<Field>, keep: nat): (r: seq<Field>)
    ensures |r| == |fields|
    decreases fields
  {
    if fields == [] then []
    else [Field(fields[0].key, Summarise(fields[0].value, keep))] + SummariseFields(fields[1..], keep)
  }

  /** No array of objects is longer than the cap, anywhere in the value. */
  predicate Capped(j: Json, keep: nat)
    decreases j
  {
    match j
    case Arr(items) => (AllObjects(items) ==> |items| <= keep) && CappedItems(items, keep)
    case Obj(fields) => CappedFields(fields, keep)
    case _ => true
  }

  predicate CappedItems(items: seq<Json>, keep: nat)
    decreases items
  {
    items == [] || (Capped(items[0], keep) && CappedItems(items[1..], keep))
  }

  predicate CappedFields(fields: seq<Field>, keep: nat)
    decreases fields
  {
    fields == [] || (Capped(fields[0].value, keep) && CappedFields(fields[1..], keep))
  }

  lemma {:induction false} SummariseCaps(j: Json, keep: nat)
    ensures Capped(Summarise(j, keep), keep)
    decreases j
  {
    match j
    case Arr(items) =>
      SummariseItemsCaps(items, keep);
      ShortenCaps(SummariseItems(items, keep), keep);
    case Obj(fields) => SummariseFieldsCaps(fields, keep);
    case _ =>
  }

  lemma {:induction false} SummariseItemsCaps(items: seq<Json>, keep: nat)
    ensures CappedItems(SummariseItems(items, keep), keep)
    decreases items
  {
    if items != [] {
      SummariseCaps(items[0], keep);
      SummariseItemsCaps(items[1..], keep);
      assert SummariseItems(items, keep)[1..] == SummariseItems(items[1..], keep);
    }
  }

  lemma {:induction false} SummariseFieldsCaps(fields: seq<Field>, keep: nat)
    ensures CappedFields(SummariseFields(fields, keep), keep)
    decreases fields
  {
    if fields != [] {
      SummariseCaps(fields[0].value, keep);
      SummariseFieldsCaps(fields[1..], keep);
      assert SummariseFields(fields, keep)[1..] == SummariseFields(fields[1..], keep);
    }
  }

  lemma ShortenCaps(items: seq<Json>, keep: nat)
    requires CappedItems(items, keep)
    ensures Capped(Arr(Shorten(items, keep)), keep)
  {
    if |items| > keep && AllObjects(items) {
      CappedHead(items, keep, keep, Omitted(|items| - keep));
      assert !Shorten(items, keep)[keep].Obj?;
    }
  }

  lemma {:induction false} CappedHead(items: seq<Json>, keep: nat, n: nat, last: Json)
    requires CappedItems(items, keep) && n <= |items| && last.Str?
    ensures CappedItems(items[..n] + [last], keep)
    decreases n
  {
    var r := items[..n] + [last];
    if n == 0 {
      assert r == [last] && r[1..] == [];
      assert Capped(last, keep);
    } else {
      CappedHead(items[1..], keep, n - 1, last);
      assert r[0] == items[0] && r[1..] == items[1..][..n - 1] + [last];
    }
  }

  /** A capped value is left alone. */
  lemma {:induction false} CappedIsFixed(j: Json, keep: nat)
    requires Capped(j, keep)
    ensures Summarise(j, keep) == j
    decreases j
  {
    match j
    case Arr(items) => CappedItemsFixed(items, keep);
    case Obj(fields) => CappedFieldsFixed(fields, keep);
    case _ =>
  }

  lemma {:induction false} CappedItemsFixed(items: seq<Json>, keep: nat)
    requires CappedItems(items, keep)
    ensures SummariseItems(items, keep) == items
    decreases items
  {
    if items != [] {
      CappedIsFixed(items[0], keep);
      CappedItemsFixed(items[1..], keep);
    }
  }

  lemma {:induction false} CappedFieldsFixed(fields: seq<Field>, keep: nat)
    requires CappedFields(fields, keep)
    ensures SummariseFields(fields, keep) == fields
    decreases fields
  {
    if fields != [] {
      CappedIsFixed(fields[0].value, keep);
      CappedFieldsFixed(fields[1..], keep);
    }
  }

  lemma SummariseIdempotent(j: Json, keep: nat)
    ensures Summarise(Summarise(j, keep), keep) == Summarise(j, keep)
  {
    SummariseCaps(j, keep);
    CappedIsFixed(Summarise(j, keep), keep);
  }

  lemma {:induction false} DumpsItemsLength(a: seq<Json>, b: seq<Json>, sep: Separators)
    requires b != []
    ensures |DumpsItems(a + b, sep)| == |DumpsItems(b, sep)| + if a == [] then 0 else |DumpsItems(a, sep)| + |sep.item|
  {
    if a == [] {
      assert a + b == b;
    } else {
      assert (a + b)[1..] == a[1..] + b;
      DumpsItemsLength(a[1..], b, sep);
    }
  }

  lemma OneItem(j: Json, sep: Separators)
    ensures DumpsItems([j], sep) == Dumps(j, sep)
  {
  }

  /** Shortening one array lengthens its text exactly when the text of the dropped items is shorter
      than the note that replaces them. */
  lemma ShortenLengthens(items: seq<Json>, keep: nat, sep: Separators)
    requires |items| > keep && AllObjects(items)
    ensures |DumpsItems(Shorten(items, keep), sep)| > |DumpsItems(items, sep)|
            <==> |DumpsItems(items[keep..], sep)| < |Dumps(Omitted(|items| - keep), sep)|
  {
    hide Dumps, DumpsItems;
    OneItem(Omitted(|items| - keep), sep);
    assert items == items[..keep] + items[keep..];
    DumpsItemsLength(items[..keep], items[keep..], sep);
    DumpsItemsLength(items[..keep], [Omitted(|items| - keep)], sep);
  }

  /** n empty objects. */
  function Empties(n: nat): (r: seq<Json>)
    ensures |r| == n && forall i :: 0 <= i < n ==> r[i] == Obj([])
  {
    if n == 0 then [] else [Obj([])] + Empties(n - 1)
  }

  lemma {:induction false} EmptiesAreFixed(n: nat, keep: nat)
    ensures SummariseItems(Empties(n), keep) == Empties(n)
  {
    if n > 0 {
      EmptiesAreFixed(n - 1, keep);
    }
  }

  /** So summarising is not a compression in every case: one empty object too many is replaced by a
      longer note. */
  lemma SummariseCanLengthen(keep: nat, sep: Separators)
    ensures |Dumps(Summarise(Arr(Empties(keep + 1)), keep), sep)| > |Dumps(Arr(Empties(keep + 1)), sep)|
  {
    EmptiesAreFixed(keep + 1, keep);
    ShortenLengthens(Empties(keep + 1), keep, sep);
    assert Empties(keep + 1)[keep..] == [Obj([])];
    assert Dumps(Obj([]), sep) == "{}";
    NoteIsLong(1, sep);
  }

  lemma {:induction false} EscapeKeepsLength(s: string)
    ensures |Escape(s)| >= |s|
  {
    if s != "" {
      EscapeKeepsLength(s[1..]);
    }
  }

  lemma NoteIsLong(n: nat, sep: Separators)
    ensures |Dumps(Omitted(n), sep)| > 14
  {
    EscapeKeepsLength(Omitted(n).text);
  }
}
