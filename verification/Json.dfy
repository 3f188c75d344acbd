/**
 JSON text. A `Tree` is a parsed document with its object members in the order
 in which they stand; `Print` writes one without white space, with the string
 escapes of Go's encoding/json, and `Parse` reads it.
 */
module Json {
  import opened Protocol
  import opened Encoding
  import opened Text

  datatype Tree =
    | TNull
    | TBool(b: bool)
    | TNum(n: int)
    | TStr(s: string)
    | TArr(items: seq<Tree>)
    | TObj(members: seq<Member>)

  datatype Member = Member(key: string, value: Tree)

  const QUOTE := '\"'
  const BACKSLASH := '\\'

  // ----- Printing -----

  /** A backslash, u and four hexadecimal digits. */
  function UnicodeEscape(c: char): string
    requires c as int < 0x10000
  {
    var n := c as int;
    [BACKSLASH, 'u', HexDigit(n / 16 / 16 / 16), HexDigit(n / 16 / 16 % 16), HexDigit(n / 16 % 16), HexDigit(n % 16)]
  }

  /** The short escapes, as the letter after the backslash. */
  function ShortEscape(c: char): Option<char> {
    match c as int
    case 0x22 => Some(QUOTE)
    case 0x5C => Some(BACKSLASH)
    case 0x08 => Some('b')
    case 0x0C => Some('f')
    case 0x0A => Some('n')
    case 0x0D => Some('r')
    case 0x09 => Some('t')
    case _ => None
  }

  /** Control characters, HTML-sensitive characters and the two Unicode line separators are written as escapes. */
  function Escape(c: char): string {
    if ShortEscape(c).Some? then [BACKSLASH, ShortEscape(c).value]
    else if c as int < 0x20 || c in "<>&" || c as int == 0x2028 || c as int == 0x2029 then UnicodeEscape(c)
    else [c]
  }

  function EscapeAll(s: string): string {
    if s == "" then "" else Escape(s[0]) + EscapeAll(s[1..])
  }

  function PrintString(s: string): string {
    [QUOTE] + EscapeAll(s) + [QUOTE]
  }

  function Print(t: Tree): (s: string)
    ensures s != "" && s[0] !in "]},:"
    decreases t, 1
  {
    match t
    case TNull => "null"
    case TBool(b) => if b then "true" else "false"
    case TNum(n) => IntText(n)
    case TStr(s) => PrintString(s)
    case TArr(items) => "[" + PrintItems(items) + "]"
    case TObj(members) => "{" + PrintMembers(members) + "}"
  }

  function PrintItems(items: seq<Tree>): string
    decreases items, 0
  {
    if items == [] then ""
    else if |items| == 1 then Print(items[0])
    else Print(items[0]) + "," + PrintItems(items[1..])
  }

  function PrintMember(m: Member): string
    decreases m, 2
  {
    PrintString(m.key) + ":" + Print(m.value)
  }

  function PrintMembers(members: seq<Member>): string
    decreases members, 0
  {
    if members == [] then ""
    else if |members| == 1 then PrintMember(members[0])
    else PrintMember(members[0]) + "," + PrintMembers(members[1..])
  }

  // ----- Parsing -----

  function FromShortEscape(c: char): Option<char> {
    match c
    case 'b' => Some(8 as char)
    case 'f' => Some(12 as char)
    case 'n' => Some(10 as char)
    case 'r' => Some(13 as char)
    case 't' => Some(9 as char)
    case _ => if c == QUOTE || c == BACKSLASH || c == '/' then Some(c) else None
  }

  /** The value of four hexadecimal digits, -1 if they are not. */
  function HexNumber(s: string): int
    requires |s| == 4
  {
    var a, b, c, d := HexValue(s[0]), HexValue(s[1]), HexValue(s[2]), HexValue(s[3]);
    if a < 0 || b < 0 || c < 0 || d < 0 then -1 else ((a * 16 + b) * 16 + c) * 16 + d
  }

  /** The first, possibly escaped, character and what follows it. */
  function ParseChar(s: string): (r: Option<(char, string)>)
    requires s != ""
    ensures r.Some? ==> |r.value.1| < |s|
  {
    if s[0] != BACKSLASH then
      if s[0] as int < 0x20 then None else Some((s[0], s[1..]))
    else if |s| < 2 then None
    else if s[1] != 'u' then
      match FromShortEscape(s[1])
      case None => None
      case Some(c) => Some((c, s[2..]))
    else if |s| < 6 then None
    else
      var n := HexNumber(s[2..6]);
      if 0 <= n < 0xD800 || 0xE000 <= n < 0x10000 then Some((n as char, s[6..])) else None
  }

  /** The rest of a string literal, after its opening quote. */
  function ParseString(s: string): (r: Option<(string, string)>)
    ensures r.Some? ==> |r.value.1| < |s|
    decreases |s|
  {
    if s == "" then None
    else if s[0] == QUOTE then Some(("", s[1..]))
    else
      match ParseChar(s)
      case None => None
      case Some((c, rest)) =>
        match ParseString(rest)
        case None => None
        case Some((t, rest')) => Some(([c] + t, rest'))
  }

  /** How many digits a text begins with. */
  function Digits(s: string): (n: nat)
    ensures n <= |s| && forall i :: 0 <= i < n ==> IsDigit(s[i])
    ensures n < |s| ==> !IsDigit(s[n])
  {
    if s == "" || !IsDigit(s[0]) then 0 else 1 + Digits(s[1..])
  }

  function ParseNumber(s: string): (r: Option<(Tree, string)>)
    requires s != ""
    ensures r.Some? ==> |r.value.1| < |s|
  {
    var t := if s[0] == '-' then s[1..] else s;
    var n := Digits(t);
    if n == 0 || (n > 1 && t[0] == '0') then None
    else
      var value: int := NatValue(t[..n]);
      Some((TNum(if s[0] == '-' then -value else value), t[n..]))
  }

  function ParseWord(s: string, word: string, t: Tree): (r: Option<(Tree, string)>)
    requires word != ""
    ensures r.Some? ==> |r.value.1| < |s|
  {
    if word <= s then Some((t, s[|word|..])) else None
  }

  function ParseValue(s: string): (r: Option<(Tree, string)>)
    ensures r.Some? ==> |r.value.1| < |s|
    decreases |s|, 2
  {
    if s == "" then None
    else match s[0]
      case 'n' => ParseWord(s, "null", TNull)
      case 't' => ParseWord(s, "true", TBool(true))
      case 'f' => ParseWord(s, "false", TBool(false))
      case '\"' => (match ParseString(s[1..])
                    case None => None
                    case Some((t, rest)) => Some((TStr(t), rest)))
      case '[' => if |s| > 1 && s[1] == ']' then Some((TArr([]), s[2..]))
                  else (match ParseItems(s[1..])
                        case None => None
                        case Some((items, rest)) => Some((TArr(items), rest)))
      case '{' => if |s| > 1 && s[1] == '}' then Some((TObj([]), s[2..]))
                  else (match ParseMembers(s[1..])
                        case None => None
                        case Some((members, rest)) => Some((TObj(members), rest)))
      case _ => ParseNumber(s)
  }

  /** One or more items up to and including the closing bracket. */
  function ParseItems(s: string): (r: Option<(seq<Tree>, string)>)
    ensures r.Some? ==> |r.value.1| < |s|
    decreases |s|, 3
  {
    match ParseValue(s)
    case None => None
    case Some((t, rest)) =>
      if rest == "" then None
      else if rest[0] == ']' then Some(([t], rest[1..]))
      else if rest[0] != ',' then None
      else match ParseItems(rest[1..])
        case None => None
        case Some((items, rest')) => Some(([t] + items, rest'))
  }

  function ParseMember(s: string): (r: Option<(Member, string)>)
    ensures r.Some? ==> |r.value.1| < |s|
    decreases |s|, 3
  {
    if s == "" || s[0] != QUOTE then None
    else match ParseString(s[1..])
      case None => None
      case Some((key, rest)) =>
        if rest == "" || rest[0] != ':' then None
        else match ParseValue(rest[1..])
          case None => None
          case Some((t, rest')) => Some((Member(key, t), rest'))
  }

  /** One or more members up to and including the closing brace. */
  function ParseMembers(s: string): (r: Option<(seq<Member>, string)>)
    ensures r.Some? ==> |r.value.1| < |s|
    decreases |s|, 4
  {
    match ParseMember(s)
    case None => None
    case Some((m, rest)) =>
      if rest == "" then None
      else if rest[0] == '}' then Some(([m], rest[1..]))
      else if rest[0] != ',' then None
      else match ParseMembers(rest[1..])
        case None => None
        case Some((members, rest')) => Some(([m] + members, rest'))
  }

  /** A whole document. */
  function Parse(s: string): Option<Tree> {
    match ParseValue(s)
    case None => None
    case Some((t, rest)) => if rest == "" then Some(t) else None
  }

  // ----- Parsing undoes printing -----

  lemma ParseUnicodeEscape(c: char, rest: string)
    requires c as int < 0x10000
    ensures ParseChar(UnicodeEscape(c) + rest) == Some((c, rest))
  {
    var n := c as int;
    var s := UnicodeEscape(c) + rest;
    var m := n / 16;
    var l := m / 16;
    assert n == m * 16 + n % 16 && m == l * 16 + m % 16 && l == l / 16 * 16 + l % 16;
    assert s[2..6] == [HexDigit(l / 16), HexDigit(l % 16), HexDigit(m % 16), HexDigit(n % 16)];
    assert HexNumber(s[2..6]) == n;
    assert s[6..] == rest;
  }

  lemma ParseEscape(c: char, rest: string)
    ensures Escape(c) != [QUOTE] && Escape(c)[0] != QUOTE
    ensures ParseChar(Escape(c) + rest) == Some((c, rest))
  {
    if ShortEscape(c).Some? {
      assert (Escape(c) + rest)[2..] == rest;
    } else if c as int < 0x20 || c in "<>&" || c as int == 0x2028 || c as int == 0x2029 {
      ParseUnicodeEscape(c, rest);
    } else {
      assert (Escape(c) + rest)[1..] == rest;
    }
  }

  lemma {:induction false} ParsePrintedString(s: string, rest: string)
    ensures ParseString(EscapeAll(s) + [QUOTE] + rest) == Some((s, rest))
  {
    if s == "" {
      assert EscapeAll(s) + [QUOTE] + rest == [QUOTE] + rest;
    } else {
      var tail := EscapeAll(s[1..]) + [QUOTE] + rest;
      assert EscapeAll(s) + [QUOTE] + rest == Escape(s[0]) + tail;
      ParseEscape(s[0], tail);
      ParsePrintedString(s[1..], rest);
      assert s == [s[0]] + s[1..];
    }
  }

  lemma {:induction false} DigitsOf(ds: string, rest: string)
    requires forall i :: 0 <= i < |ds| ==> IsDigit(ds[i])
    requires rest == "" || !IsDigit(rest[0])
    ensures Digits(ds + rest) == |ds|
  {
    if ds == "" {
      assert ds + rest == rest;
    } else {
      assert (ds + rest)[1..] == ds[1..] + rest;
      DigitsOf(ds[1..], rest);
    }
  }

  /** The text after an optional minus sign. */
  lemma ParseSigned(s: string, ds: string, rest: string, negative: bool, n: int)
    requires s != "" && (s[0] == '-' <==> negative) && (if negative then s[1..] else s) == ds + rest
    requires ds != "" && forall i :: 0 <= i < |ds| ==> IsDigit(ds[i])
    requires (|ds| > 1 ==> ds[0] != '0') && n == NatValue(ds)
    requires Digits(ds + rest) == |ds|
    ensures ParseNumber(s) == Some((TNum(if negative then -n else n), rest))
  {
    assert (ds + rest)[..|ds|] == ds && (ds + rest)[|ds|..] == rest;
  }

  lemma DropMinus(ds: string, rest: string)
    ensures ("-" + ds + rest)[0] == '-' && ("-" + ds + rest)[1..] == ds + rest
  {
  }

  lemma SignedText(n: int, ds: string, rest: string)
    requires ds == NatText(if n < 0 then -n else n)
    ensures var s := IntText(n) + rest;
            s != "" && (s[0] == '-' <==> n < 0) && (if n < 0 then s[1..] else s) == ds + rest
  {
    DropMinus(ds, rest);
    assert IsDigit(ds[0]);
  }

  lemma ParsePrintedNumber(n: int, rest: string)
    requires rest == "" || !IsDigit(rest[0])
    ensures ParseValue(IntText(n) + rest) == Some((TNum(n), rest))
  {
    var m := if n < 0 then -n else n;
    var ds := NatText(m);
    NoLeadingZero(m);
    NatValueOfText(m);
    DigitsOf(ds, rest);
    SignedText(n, ds, rest);
    ParseSigned(IntText(n) + rest, ds, rest, n < 0, m);
    ParseNumeric(IntText(n) + rest);
  }

  lemma ParsePrintedText(s: string, rest: string)
    ensures ParseValue(PrintString(s) + rest) == Some((TStr(s), rest))
  {
    var body := EscapeAll(s) + [QUOTE] + rest;
    ParsePrintedString(s, rest);
    ParseQuoted(body, s, rest);
    assert PrintString(s) + rest == [QUOTE] + body;
  }

  lemma ParsePrintedWord(t: Tree, rest: string)
    requires t.TNull? || t.TBool?
    ensures ParseValue(Print(t) + rest) == Some((t, rest))
  {
    var word := Print(t);
    assert word + rest != "" && (word + rest)[0] == word[0];
    assert (word + rest)[|word|..] == rest;
  }

  /** What ParseValue does with a bracketed list, from what it does with the list. */
  lemma ParseBracketed(t: Tree, body: string, rest: string)
    requires t.TArr? && t.items != [] && body != "" && body[0] != ']'
    requires ParseItems(body) == Some((t.items, rest))
    ensures ParseValue("[" + body) == Some((t, rest))
  {
    var s := "[" + body;
    assert s[0] == '[' && s[1..] == body && s[1] == body[0];
  }

  lemma ParseBraced(t: Tree, body: string, rest: string)
    requires t.TObj? && t.members != [] && body != "" && body[0] != '}'
    requires ParseMembers(body) == Some((t.members, rest))
    ensures ParseValue("{" + body) == Some((t, rest))
  {
    var s := "{" + body;
    assert s[0] == '{' && s[1..] == body && s[1] == body[0];
  }

  lemma ParseQuoted(body: string, str: string, rest: string)
    requires ParseString(body) == Some((str, rest))
    ensures ParseValue([QUOTE] + body) == Some((TStr(str), rest))
  {
    assert ([QUOTE] + body)[1..] == body;
  }

  lemma ParseNumeric(s: string)
    requires s != "" && (IsDigit(s[0]) || s[0] == '-')
    ensures ParseValue(s) == ParseNumber(s)
  {
    var c := s[0];
    assert c != 'n' && c != 't' && c != 'f' && c != '\"' && c != '[' && c != '{';
  }

  lemma ParsePrintedScalar(t: Tree, rest: string)
    requires !t.TArr? && !t.TObj?
    requires rest == "" || !IsDigit(rest[0])
    ensures ParseValue(Print(t) + rest) == Some((t, rest))
  {
    if t.TNum? {
      ParsePrintedNumber(t.n, rest);
    } else if t.TStr? {
      ParsePrintedText(t.s, rest);
    } else {
      ParsePrintedWord(t, rest);
    }
  }

  lemma Enclosed(open: string, body: string, close: string, rest: string)
    ensures open + body + close + rest == open + (body + close + rest)
  {
  }

  lemma {:induction false} ParsePrinted(t: Tree, rest: string)
    requires rest == "" || !IsDigit(rest[0])
    ensures ParseValue(Print(t) + rest) == Some((t, rest))
    decreases t, 1
  {
    var s := Print(t) + rest;
    if t == TArr([]) || t == TObj([]) {
      assert s[2..] == rest;
    } else if t.TArr? {
      Enclosed("[", PrintItems(t.items), "]", rest);
      ParsePrintedItems(t.items, rest);
      ParseBracketed(t, PrintItems(t.items) + "]" + rest, rest);
    } else if t.TObj? {
      Enclosed("{", PrintMembers(t.members), "}", rest);
      ParsePrintedMembers(t.members, rest);
      ParseBraced(t, PrintMembers(t.members) + "}" + rest, rest);
    } else {
      ParsePrintedScalar(t, rest);
    }
  }

  /** A list's text, seen as its first element and what follows. */
  lemma FirstThenRest(first: string, more: string, close: string, rest: string)
    ensures first + "," + more + close + rest == first + ("," + (more + close + rest))
  {
  }

  lemma LastItem(p: string, t: Tree, rest: string)
    requires ParseValue(p + ("]" + rest)) == Some((t, "]" + rest))
    ensures ParseItems(p + "]" + rest) == Some(([t], rest))
  {
    assert p + "]" + rest == p + ("]" + rest) && ("]" + rest)[1..] == rest;
  }

  lemma NextItem(p: string, t: Tree, more: string, items: seq<Tree>, rest: string)
    requires ParseValue(p + ("," + (more + "]" + rest))) == Some((t, "," + (more + "]" + rest)))
    requires ParseItems(more + "]" + rest) == Some((items, rest))
    ensures ParseItems(p + "," + more + "]" + rest) == Some(([t] + items, rest))
  {
    FirstThenRest(p, more, "]", rest);
    var tail := more + "]" + rest;
    assert ("," + tail)[1..] == tail;
  }

  lemma {:induction false} ParsePrintedItems(items: seq<Tree>, rest: string)
    requires items != []
    ensures PrintItems(items) != "" && PrintItems(items)[0] != ']'
    ensures ParseItems(PrintItems(items) + "]" + rest) == Some((items, rest))
    decreases items, 0
  {
    var t, p := items[0], Print(items[0]);
    if |items| == 1 {
      ParsePrinted(t, "]" + rest);
      LastItem(p, t, rest);
      assert items == [t];
    } else {
      var more := PrintItems(items[1..]);
      ParsePrinted(t, "," + (more + "]" + rest));
      ParsePrintedItems(items[1..], rest);
      NextItem(p, t, more, items[1..], rest);
      assert items == [t] + items[1..];
    }
  }

  lemma ParseParts(body: string, key: string, text: string, t: Tree, rest: string)
    requires ParseString(body) == Some((key, ":" + text)) && ParseValue(text) == Some((t, rest))
    ensures ParseMember([QUOTE] + body) == Some((Member(key, t), rest))
  {
    assert ([QUOTE] + body)[1..] == body && (":" + text)[1..] == text;
  }

  lemma MemberText(key: string, text: string, rest: string)
    ensures [QUOTE] + key + [QUOTE] + ":" + text + rest == [QUOTE] + (key + [QUOTE] + (":" + (text + rest)))
  {
  }

  lemma {:induction false} ParsePrintedMember(m: Member, rest: string)
    requires rest == "" || !IsDigit(rest[0])
    ensures PrintMember(m)[0] == QUOTE
    ensures ParseMember(PrintMember(m) + rest) == Some((m, rest))
    decreases m, 2
  {
    var key, text := EscapeAll(m.key), Print(m.value);
    MemberText(key, text, rest);
    ParsePrintedString(m.key, ":" + (text + rest));
    ParsePrinted(m.value, rest);
    ParseParts(key + [QUOTE] + (":" + (text + rest)), m.key, text + rest, m.value, rest);
  }

  lemma LastMember(p: string, m: Member, rest: string)
    requires ParseMember(p + ("}" + rest)) == Some((m, "}" + rest))
    ensures ParseMembers(p + "}" + rest) == Some(([m], rest))
  {
    assert p + "}" + rest == p + ("}" + rest) && ("}" + rest)[1..] == rest;
  }

  lemma NextMember(p: string, m: Member, more: string, members: seq<Member>, rest: string)
    requires ParseMember(p + ("," + (more + "}" + rest))) == Some((m, "," + (more + "}" + rest)))
    requires ParseMembers(more + "}" + rest) == Some((members, rest))
    ensures ParseMembers(p + "," + more + "}" + rest) == Some(([m] + members, rest))
  {
    FirstThenRest(p, more, "}", rest);
    var tail := more + "}" + rest;
    assert ("," + tail)[1..] == tail;
  }

  lemma {:induction false} ParsePrintedMembers(members: seq<Member>, rest: string)
    requires members != []
    ensures PrintMembers(members) != "" && PrintMembers(members)[0] != '}'
    ensures ParseMembers(PrintMembers(members) + "}" + rest) == Some((members, rest))
    decreases members, 0
  {
    var m, p := members[0], PrintMember(members[0]);
    if |members| == 1 {
      ParsePrintedMember(m, "}" + rest);
      LastMember(p, m, rest);
      assert members == [m];
    } else {
      var more := PrintMembers(members[1..]);
      ParsePrintedMember(m, "," + (more + "}" + rest));
      ParsePrintedMembers(members[1..], rest);
      NextMember(p, m, more, members[1..], rest);
      assert members == [m] + members[1..];
    }
  }

  /** Every printed document parses to the tree it was printed from. */
  lemma ParsePrint(t: Tree)
    ensures Parse(Print(t)) == Some(t)
  {
    ParsePrinted(t, "");
    assert Print(t) + "" == Print(t);
  }

  // ----- The table of escapes -----

  /** A character that is written as itself. */
  predicate Plain(c: char) {
    c as int >= 0x20 && c !in ['\"', '\\', '<', '>', '&', 0x2028 as char, 0x2029 as char]
  }

  /** What encoding/json writes for a character: a letter after a backslash, four hexadecimal digits, or itself. */
  lemma EscapeMeaning(c: char)
    ensures Escape(c) == [c] <==> Plain(c)
    ensures c == '\"' ==> Escape(c) == "\\\""
    ensures c == '\\' ==> Escape(c) == "\\\\"
    ensures c == '\n' ==> Escape(c) == "\\n"
    ensures c == '\r' ==> Escape(c) == "\\r"
    ensures c == '\t' ==> Escape(c) == "\\t"
    ensures c as int == 8 ==> Escape(c) == "\\b"
    ensures c as int == 12 ==> Escape(c) == "\\f"
    ensures c == '<' ==> Escape(c) == "\\u003c"
    ensures c == '>' ==> Escape(c) == "\\u003e"
    ensures c == '&' ==> Escape(c) == "\\u0026"
    ensures c as int == 0x2028 ==> Escape(c) == "\\u2028"
    ensures c as int == 0x2029 ==> Escape(c) == "\\u2029"
    ensures c as int < 0x20 && c as int !in {8, 9, 10, 12, 13} ==>
              Escape(c) == "\\u00" + ["01"[c as int / 16], "0123456789abcdef"[c as int % 16]]
  {
    if c as int < 0x20 {
      HexAlphabet(c as int / 16);
      HexAlphabet(c as int % 16);
    }
  }

  lemma {:induction false} PlainIsItself(s: string)
    requires forall i :: 0 <= i < |s| ==> Plain(s[i])
    ensures EscapeAll(s) == s
  {
    if s != "" {
      EscapeMeaning(s[0]);
      PlainIsItself(s[1..]);
      assert s == [s[0]] + s[1..];
    }
  }
}
