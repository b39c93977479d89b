/** Canonical JSON: `json.dumps` with sorted keys and compact separators, and its inverse `json.loads`. */
module Json {
  import opened Options

  /** A Python value as `json.dumps` sees it. A float is given by its text, `float.__repr__`;
      `Alien` stands for any object that the encoder refuses. */
  datatype Json =
    | Null
    | Bool(b: bool)
    | Int(n: int)
    | Float(text: string)
    | Str(s: string)
    | Arr(items: seq<Json>)
    | Obj(fields: map<string, Json>)
    | Alien

  // ---- Sorted keys ----

  /** Python's order on strings: by code point, lexicographically. */
  predicate Leq(a: string, b: string) {
    a == [] || (b != [] && (a[0] < b[0] || (a[0] == b[0] && Leq(a[1..], b[1..]))))
  }

  lemma {:induction false} LeqTotal(a: string, b: string)
    ensures Leq(a, b) || Leq(b, a)
    ensures Leq(a, b) && Leq(b, a) ==> a == b
  {
    if a != [] && b != [] && a[0] == b[0] {
      LeqTotal(a[1..], b[1..]);
      assert a == [a[0]] + a[1..] && b == [b[0]] + b[1..];
    }
  }

  lemma {:induction false} LeqTransitive(a: string, b: string, c: string)
    requires Leq(a, b) && Leq(b, c)
    ensures Leq(a, c)
  {
    if a != [] && a[0] == b[0] == c[0] {
      LeqTransitive(a[1..], b[1..], c[1..]);
    }
  }

  predicate IsLeast(k: string, keys: set<string>) {
    k in keys && forall j :: j in keys ==> Leq(k, j)
  }

  lemma {:induction false} LeastExists(keys: set<string>) returns (k: string)
    requires keys != {}
    ensures IsLeast(k, keys)
  {
    var x :| x in keys;
    if keys == {x} {
      LeqTotal(x, x);
      k := x;
    } else {
      var y := LeastExists(keys - {x});
      LeqTotal(x, y);
      LeqTotal(x, x);
      k := if Leq(x, y) then x else y;
      forall j | j in keys
        ensures Leq(k, j)
      {
        if Leq(x, y) && j != x {
          LeqTransitive(x, y, j);
        }
      }
    }
  }

  lemma LeastUnique(keys: set<string>)
    requires keys != {}
    ensures exists k :: IsLeast(k, keys)
    ensures forall j, k :: IsLeast(j, keys) && IsLeast(k, keys) ==> j == k
  {
    var _ := LeastExists(keys);
    forall j, k | IsLeast(j, keys) && IsLeast(k, keys)
      ensures j == k
    {
      LeqTotal(j, k);
    }
  }

  function Least(keys: set<string>): (k: string)
    requires keys != {}
    ensures IsLeast(k, keys)
  {
    LeastUnique(keys);
    var k :| IsLeast(k, keys);
    k
  }

  /** The keys of a dictionary in the order in which they are written. */
  function SortedKeys(keys: set<string>): (r: seq<string>)
    ensures forall k :: k in r <==> k in keys
  {
    if keys == {} then [] else [Least(keys)] + SortedKeys(keys - {Least(keys)})
  }

  /** The written order is strictly ascending, so it is the one order of those keys. */
  lemma {:induction false} SortedKeysAscend(keys: set<string>, i: nat, j: nat)
    requires i < j < |SortedKeys(keys)|
    ensures Leq(SortedKeys(keys)[i], SortedKeys(keys)[j]) && SortedKeys(keys)[i] != SortedKeys(keys)[j]
  {
    var rest := SortedKeys(keys - {Least(keys)});
    assert rest[j - 1] in rest;
    if i > 0 {
      SortedKeysAscend(keys - {Least(keys)}, i - 1, j - 1);
    }
  }

  // ---- Numbers ----

  predicate IsDigit(c: char) {
    '0' <= c <= '9'
  }

  predicate AllDigits(s: string) {
    forall i :: 0 <= i < |s| ==> IsDigit(s[i])
  }

  function Digit(d: nat): (c: char)
    requires d < 10
    ensures IsDigit(c) && c as int - '0' as int == d
  {
    (d + '0' as int) as char
  }

  function Digits(n: nat): (s: string)
    ensures s != [] && AllDigits(s)
  {
    if n < 10 then [Digit(n)] else Digits(n / 10) + [Digit(n % 10)]
  }

  function DigitsValue(s: string): nat
    requires AllDigits(s)
  {
    if s == [] then 0
    else 10 * DigitsValue(s[..|s| - 1]) + (s[|s| - 1] as int - '0' as int)
  }

  lemma {:induction false} DigitsInverse(n: nat)
    ensures DigitsValue(Digits(n)) == n
  {
    if n >= 10 {
      DigitsInverse(n / 10);
      assert Digits(n)[..|Digits(n)| - 1] == Digits(n / 10);
    } else {
      assert Digits(n)[..0] == [];
    }
  }

  function IntText(n: int): string {
    if n < 0 then "-" + Digits(-n) else Digits(n)
  }

  predicate IsNumberChar(c: char) {
    IsDigit(c) || c == '-' || c == '+' || c == '.' || c == 'e' || c == 'E'
  }

  predicate IsToken(s: string) {
    && s != [] && (IsDigit(s[0]) || s[0] == '-')
    && forall i :: 0 <= i < |s| ==> IsNumberChar(s[i])
  }

  function TokenLength(s: string): (n: nat)
    ensures n <= |s|
  {
    if s != [] && IsNumberChar(s[0]) then 1 + TokenLength(s[1..]) else 0
  }

  /** An integer literal reads as an `int`, any other number token as a `float`. */
  function ReadNumber(token: string): Json {
    if token != [] && AllDigits(token) then Int(DigitsValue(token))
    else if |token| > 1 && token[0] == '-' && AllDigits(token[1..]) then Int(0 - DigitsValue(token[1..]))
    else Float(token)
  }

  // ---- Strings ----

  function HexDigit(d: nat): char
    requires d < 16
  {
    if d < 10 then Digit(d) else (d - 10 + 'a' as int) as char
  }

  function HexValue(c: char): Option<nat> {
    if IsDigit(c) then Some(c as int - '0' as int)
    else if 'a' <= c <= 'f' then Some(c as int - 'a' as int + 10)
    else None
  }

  /** `ensure_ascii=False`: quotes, backslashes and control characters only. */
  function Escape(c: char): string {
    if c == '\"' then "\\\""
    else if c == '\\' then "\\\\"
    else if c == '\n' then "\\n"
    else if c == '\r' then "\\r"
    else if c == '\t' then "\\t"
    else if c as int == 0x0C then "\\f"
    else if c as int == 0x08 then "\\b"
    else if c as int < 0x20 then ['\\', 'u', '0', '0', HexDigit(c as int / 16), HexDigit(c as int % 16)]
    else [c]
  }

  function EscapeAll(s: string): string {
    if s == [] then [] else Escape(s[0]) + EscapeAll(s[1..])
  }

  function Quote(s: string): string {
    "\"" + EscapeAll(s) + "\""
  }

  datatype Parse<T> = Got(value: T, rest: string) | Bad

  /** One possibly escaped character. */
  function ParseChar(s: string): (r: Parse<char>)
    ensures r.Got? ==> |r.rest| < |s|
  {
    if s == [] || s[0] == '\"' || s[0] as int < 0x20 then Bad
    else if s[0] != '\\' then Got(s[0], s[1..])
    else if |s| < 2 then Bad
    else
      match s[1]
      case '\"' => Got('\"', s[2..])
      case '\\' => Got('\\', s[2..])
      case '/' => Got('/', s[2..])
      case 'n' => Got('\n', s[2..])
      case 'r' => Got('\r', s[2..])
      case 't' => Got('\t', s[2..])
      case 'f' => Got(0x0C as char, s[2..])
      case 'b' => Got(0x08 as char, s[2..])
      case 'u' => ParseHex(s)
      case _ => Bad
  }

  function ParseHex(s: string): (r: Parse<char>)
    ensures r.Got? ==> |r.rest| < |s|
  {
    if |s| < 6 then Bad
    else
      match (HexValue(s[2]), HexValue(s[3]), HexValue(s[4]), HexValue(s[5]))
      case (Some(a), Some(b), Some(c), Some(d)) =>
        var n := ((a * 16 + b) * 16 + c) * 16 + d;
        if n < 0xD800 || 0xE000 <= n < 0x11_0000 then Got(n as char, s[6..]) else Bad
      case _ => Bad
  }

  /** The characters up to the closing quote. */
  function ParseString(s: string): (r: Parse<string>)
    ensures r.Got? ==> |r.rest| < |s|
    decreases |s|
  {
    if s != [] && s[0] == '\"' then Got([], s[1..])
    else
      match ParseChar(s)
      case Bad => Bad
      case Got(c, rest) =>
        match ParseString(rest)
        case Bad => Bad
        case Got(t, rest') => Got([c] + t, rest')
  }

  lemma ParseEscaped(c: char, rest: string)
    ensures Escape(c) != [] && Escape(c)[0] != '\"'
    ensures ParseChar(Escape(c) + rest) == Got(c, rest)
  {
    var s := Escape(c) + rest;
    assert s[|Escape(c)|..] == rest;
    if |Escape(c)| == 6 {
      assert c as int == c as int / 16 * 16 + c as int % 16;
      assert HexValue(s[4]) == Some(c as int / 16) && HexValue(s[5]) == Some(c as int % 16);
      assert HexValue(s[2]) == Some(0) && HexValue(s[3]) == Some(0);
    }
  }

  lemma {:induction false} ParseQuoted(s: string, rest: string)
    ensures ParseString(EscapeAll(s) + "\"" + rest) == Got(s, rest)
  {
    var text := EscapeAll(s) + "\"" + rest;
    if s == [] {
      assert text == "\"" + rest;
      assert text[1..] == rest;
    } else {
      var tail := EscapeAll(s[1..]) + "\"" + rest;
      assert text == Escape(s[0]) + tail;
      ParseEscaped(s[0], tail);
      ParseQuoted(s[1..], rest);
      assert [s[0]] + s[1..] == s;
    }
  }
}
