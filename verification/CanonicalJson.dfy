/** Writing a value and reading it back. The reader covers the compact texts that the writer produces
    (no whitespace between tokens, no NaN or Infinity). */
module CanonicalJson {
  import opened Options
  import opened Utf8
  import opened Json

  /** What `json.dumps(..., allow_nan=False)` accepts: finite floats and no foreign objects, at any depth. */
  predicate Dumpable(v: Json)
    decreases v
  {
    match v
    case Alien => false
    case Float(text) => IsToken(text) && ReadNumber(text).Float?
    case Arr(items) => forall i :: 0 <= i < |items| ==> Dumpable(items[i])
    case Obj(fields) => forall k :: k in fields ==> Dumpable(fields[k])
    case _ => true
  }

  function Render(v: Json): string
    decreases v, 2, 0
  {
    match v
    case Null => "null"
    case Bool(b) => if b then "true" else "false"
    case Int(n) => IntText(n)
    case Float(text) => text
    case Str(s) => Quote(s)
    case Arr(items) => if items == [] then "[]" else "[" + RenderItems(v, 0)
    case Obj(fields) => if fields == map[] then "{}" else "{" + RenderFields(v, SortedKeys(fields.Keys))
    case Alien => ""
  }

  /** Elements from index `i` on, and the closing bracket. */
  function RenderItems(v: Json, i: nat): string
    requires v.Arr? && i < |v.items|
    decreases v, 1, |v.items| - i
  {
    Render(v.items[i]) + if i + 1 < |v.items| then "," + RenderItems(v, i + 1) else "]"
  }

  /** The members with the given keys, and the closing brace. */
  function RenderFields(v: Json, keys: seq<string>): string
    requires v.Obj? && keys != [] && forall k :: k in keys ==> k in v.fields
    decreases v, 1, |keys|
  {
    var k := keys[0];
    Quote(k) + ":" + Render(v.fields[k]) + if |keys| > 1 then "," + RenderFields(v, keys[1..]) else "}"
  }

  function ParseValue(s: string): (r: Parse<Json>)
    ensures r.Got? ==> |r.rest| < |s|
    decreases |s|, 0
  {
    if s == [] then Bad
    else if s[0] == '\"' then
      match ParseString(s[1..])
      case Bad => Bad
      case Got(t, rest) => Got(Str(t), rest)
    else if s[0] == '[' then
      if |s| > 1 && s[1] == ']' then Got(Arr([]), s[2..])
      else
        match ParseItems(s[1..])
        case Bad => Bad
        case Got(items, rest) => Got(Arr(items), rest)
    else if s[0] == '{' then
      if |s| > 1 && s[1] == '}' then Got(Obj(map[]), s[2..])
      else
        match ParseFields(s[1..])
        case Bad => Bad
        case Got(fields, rest) => Got(Obj(fields), rest)
    else if "null" <= s then Got(Null, s[4..])
    else if "true" <= s then Got(Bool(true), s[4..])
    else if "false" <= s then Got(Bool(false), s[5..])
    else if IsDigit(s[0]) || s[0] == '-' then Got(ReadNumber(s[..TokenLength(s)]), s[TokenLength(s)..])
    else Bad
  }

  function ParseItems(s: string): (r: Parse<seq<Json>>)
    ensures r.Got? ==> |r.rest| < |s|
    decreases |s|, 1
  {
    match ParseValue(s)
    case Bad => Bad
    case Got(v, rest) =>
      if rest == [] then Bad
      else if rest[0] == ']' then Got([v], rest[1..])
      else if rest[0] != ',' then Bad
      else
        PrependItem(v, ParseItems(rest[1..]))
  }

  /** Members up to the closing brace; a repeated key keeps its last value. */
  function ParseFields(s: string): (r: Parse<map<string, Json>>)
    ensures r.Got? ==> |r.rest| < |s|
    decreases |s|, 1
  {
    if s == [] || s[0] != '\"' then Bad
    else
      match ParseString(s[1..])
      case Bad => Bad
      case Got(k, colon) =>
        if colon == [] || colon[0] != ':' then Bad
        else
          match ParseValue(colon[1..])
          case Bad => Bad
          case Got(v, rest) =>
            if rest == [] then Bad
            else if rest[0] == '}' then Got(map[k := v], rest[1..])
            else if rest[0] != ',' then Bad
            else
              Prepend(k, v, ParseFields(rest[1..]))
  }

  function Prepend(k: string, v: Json, r: Parse<map<string, Json>>): (r': Parse<map<string, Json>>)
    ensures r'.Got? <==> r.Got?
    ensures r.Got? ==> r'.rest == r.rest
  {
    match r
    case Bad => Bad
    case Got(m, rest) => Got(map[k := v] + m, rest)
  }

  /** What may follow a value: nothing, or a separator or closer. */
  predicate Delimited(rest: string) {
    rest == [] || rest[0] == ',' || rest[0] == ']' || rest[0] == '}'
  }

  lemma {:induction false} TokenEnds(token: string, rest: string)
    requires forall i :: 0 <= i < |token| ==> IsNumberChar(token[i])
    requires Delimited(rest)
    ensures TokenLength(token + rest) == |token|
  {
    if token == [] {
      assert token + rest == rest;
    } else {
      TokenEnds(token[1..], rest);
      assert (token + rest)[1..] == token[1..] + rest;
    }
  }

  lemma ParseToken(token: string, rest: string)
    requires IsToken(token) && Delimited(rest)
    ensures ParseValue(token + rest) == Got(ReadNumber(token), rest)
  {
    TokenEnds(token, rest);
    var s := token + rest;
    assert s[0] == token[0];
    assert s[..|token|] == token && s[|token|..] == rest;
    assert "null"[0] == 'n' && "true"[0] == 't' && "false"[0] == 'f';
  }

  lemma IntTextReads(n: int)
    ensures IsToken(IntText(n)) && ReadNumber(IntText(n)) == Int(n)
  {
    if n < 0 {
      var d := Digits(-n);
      DigitsInverse(-n);
      assert IntText(n)[1..] == d && IntText(n)[0] == '-';
      assert forall i :: 1 <= i < |IntText(n)| ==> IntText(n)[i] == d[i - 1];
    } else {
      DigitsInverse(n);
    }
  }

  lemma ParseKeyword(word: string, v: Json, rest: string)
    requires (word == "null" && v == Null) || (word == "true" && v == Bool(true)) || (word == "false" && v == Bool(false))
    ensures ParseValue(word + rest) == Got(v, rest)
  {
    var s := word + rest;
    assert s[0] == word[0] && s[..|word|] == word && s[|word|..] == rest;
  }

  lemma ParseStr(s: string, rest: string)
    ensures ParseValue(Quote(s) + rest) == Got(Str(s), rest)
  {
    hide ParseValue, ParseString, EscapeAll;
    ParseQuoted(s, rest);
    assert (Quote(s) + rest)[1..] == EscapeAll(s) + "\"" + rest;
    ParseOpenQuote(Quote(s) + rest);
  }

  lemma ParseOpenQuote(text: string)
    requires text != [] && text[0] == '\"'
    ensures var t := ParseString(text[1..]); t.Got? ==> ParseValue(text) == Got(Str(t.value), t.rest)
  {
    hide ParseString;
  }

  /** Reading inverts writing, whatever delimited text follows. */
  lemma {:induction false} ParseRender(v: Json, rest: string)
    requires Dumpable(v) && Delimited(rest)
    ensures ParseValue(Render(v) + rest) == Got(v, rest)
    decreases v, 2, 0
  {
    match v
    case Null => ParseKeyword("null", v, rest);
    case Bool(b) => ParseKeyword(Render(v), v, rest);
    case Int(n) => IntTextReads(n); ParseToken(Render(v), rest);
    case Float(text) => ParseToken(text, rest);
    case Str(s) => ParseStr(s, rest);
    case Arr(items) =>
      if items == [] {
        assert (Render(v) + rest)[2..] == rest;
      } else {
        ParseRenderItems(v, 0, rest);
        ParseArray(v, rest);
      }
    case Obj(fields) =>
      if fields == map[] {
        assert (Render(v) + rest)[2..] == rest;
      } else {
        SomeKey(fields);
        ParseRenderFields(v, SortedKeys(fields.Keys), rest);
        ParseObject(v, rest);
      }
  }

  lemma SomeKey(fields: map<string, Json>)
    requires fields != map[]
    ensures SortedKeys(fields.Keys) != []
  {
    var k :| k in fields;
    assert k in SortedKeys(fields.Keys);
  }

  lemma ParseArray(v: Json, rest: string)
    requires v.Arr? && Dumpable(v) && v.items != []
    requires ParseItems(RenderItems(v, 0) + rest) == Got(v.items[0..], rest)
    ensures ParseValue(Render(v) + rest) == Got(v, rest)
  {
    hide ParseValue, ParseItems, ParseFields;
    var text := Render(v) + rest;
    assert text[1..] == RenderItems(v, 0) + rest;
    RenderStarts(v.items[0]);
    assert text[1] == Render(v.items[0])[0];
    assert v.items[0..] == v.items;
    ParseBracket(text, v.items, rest);
  }

  lemma ParseBracket(s: string, items: seq<Json>, rest: string)
    requires |s| > 1 && s[0] == '[' && s[1] != ']' && ParseItems(s[1..]) == Got(items, rest)
    ensures ParseValue(s) == Got(Arr(items), rest)
  {
  }

  lemma ParseBrace(s: string, fields: map<string, Json>, rest: string)
    requires |s| > 1 && s[0] == '{' && s[1] != '}' && ParseFields(s[1..]) == Got(fields, rest)
    ensures ParseValue(s) == Got(Obj(fields), rest)
  {
  }

  lemma ParseObject(v: Json, rest: string)
    requires v.Obj? && v.fields != map[] && SortedKeys(v.fields.Keys) != []
    requires ParseFields(RenderFields(v, SortedKeys(v.fields.Keys)) + rest)
      == Got(Restrict(v, SortedKeys(v.fields.Keys)), rest)
    ensures ParseValue(Render(v) + rest) == Got(v, rest)
  {
    hide ParseValue, ParseItems, ParseFields;
    var text, keys := Render(v) + rest, SortedKeys(v.fields.Keys);
    assert text[1..] == RenderFields(v, keys) + rest;
    assert text[1] == '\"';
    assert Restrict(v, keys) == v.fields;
    ParseBrace(text, v.fields, rest);
  }

  /** No value starts with a closing bracket. */
  lemma RenderStarts(v: Json)
    requires Dumpable(v)
    ensures Render(v) != [] && Render(v)[0] != ']'
  {
    if v.Int? {
      IntTextReads(v.n);
    }
  }

  function PrependItem(v: Json, r: Parse<seq<Json>>): (r': Parse<seq<Json>>)
    ensures r'.Got? <==> r.Got?
    ensures r.Got? ==> r'.rest == r.rest
  {
    match r
    case Bad => Bad
    case Got(vs, rest) => Got([v] + vs, rest)
  }

  /** Reading one element and what follows it. */
  lemma ParseElement(s: string, v: Json, tail: string)
    requires ParseValue(s) == Got(v, tail) && tail != []
    ensures tail[0] == ']' ==> ParseItems(s) == Got([v], tail[1..])
    ensures tail[0] == ',' ==> ParseItems(s) == PrependItem(v, ParseItems(tail[1..]))
  {
  }

  function RestOfItems(v: Json, i: nat): string
    requires v.Arr? && i < |v.items|
  {
    if i + 1 < |v.items| then "," + RenderItems(v, i + 1) else "]"
  }

  lemma RenderItemsUnfolds(v: Json, i: nat, rest: string)
    requires v.Arr? && i < |v.items|
    ensures RenderItems(v, i) + rest == Render(v.items[i]) + (RestOfItems(v, i) + rest)
  {
  }

  lemma {:induction false} ParseRenderItems(v: Json, i: nat, rest: string)
    requires v.Arr? && Dumpable(v) && i < |v.items|
    ensures ParseItems(RenderItems(v, i) + rest) == Got(v.items[i..], rest)
    decreases v, 1, |v.items| - i
  {
    hide ParseValue, ParseItems, ParseFields, Render, RenderItems, RenderFields;
    var tail := RestOfItems(v, i) + rest;
    RenderItemsUnfolds(v, i, rest);
    ParseRender(v.items[i], tail);
    ParseElement(RenderItems(v, i) + rest, v.items[i], tail);
    if i + 1 == |v.items| {
      assert tail[1..] == rest;
      assert v.items[i..] == [v.items[i]];
    } else {
      assert tail[1..] == RenderItems(v, i + 1) + rest;
      ParseRenderItems(v, i + 1, rest);
      assert v.items[i..] == [v.items[i]] + v.items[i + 1..];
    }
  }

  /** Reading one member: key, colon, value. */
  lemma ParseMember(k: string, v: Json, tail: string)
    requires ParseValue(Render(v) + tail) == Got(v, tail) && tail != []
    ensures var s := Quote(k) + ":" + Render(v) + tail;
      && (tail[0] == '}' ==> ParseFields(s) == Got(map[k := v], tail[1..]))
      && (tail[0] == ',' ==> ParseFields(s) == Prepend(k, v, ParseFields(tail[1..])))
  {
    hide ParseValue, ParseItems, ParseString, Render, EscapeAll;
    var s, afterKey := Quote(k) + ":" + Render(v) + tail, ":" + (Render(v) + tail);
    assert s[1..] == EscapeAll(k) + "\"" + afterKey;
    ParseQuoted(k, afterKey);
    assert afterKey[1..] == Render(v) + tail;
  }

  function Restrict(v: Json, keys: seq<string>): map<string, Json>
    requires v.Obj? && forall k :: k in keys ==> k in v.fields
  {
    map k | k in keys :: v.fields[k]
  }

  lemma RestrictCons(v: Json, keys: seq<string>)
    requires v.Obj? && keys != [] && forall k :: k in keys ==> k in v.fields
    ensures Restrict(v, keys) == map[keys[0] := v.fields[keys[0]]] + Restrict(v, keys[1..])
  {
  }

  function RestOfFields(v: Json, keys: seq<string>): string
    requires v.Obj? && keys != [] && forall k :: k in keys ==> k in v.fields
  {
    if |keys| > 1 then "," + RenderFields(v, keys[1..]) else "}"
  }

  lemma RenderFieldsUnfolds(v: Json, keys: seq<string>, rest: string)
    requires v.Obj? && keys != [] && forall k :: k in keys ==> k in v.fields
    ensures RenderFields(v, keys) + rest
      == Quote(keys[0]) + ":" + Render(v.fields[keys[0]]) + (RestOfFields(v, keys) + rest)
  {
  }

  lemma {:induction false} ParseRenderFields(v: Json, keys: seq<string>, rest: string)
    requires v.Obj? && Dumpable(v) && keys != [] && forall k :: k in keys ==> k in v.fields
    ensures ParseFields(RenderFields(v, keys) + rest) == Got(Restrict(v, keys), rest)
    decreases v, 1, |keys|
  {
    hide ParseValue, ParseItems, ParseFields, Render, RenderItems, RenderFields, Quote;
    var k, tail := keys[0], RestOfFields(v, keys) + rest;
    ParseRender(v.fields[k], tail);
    ParseMember(k, v.fields[k], tail);
    RenderFieldsUnfolds(v, keys, rest);
    RestrictCons(v, keys);
    if |keys| == 1 {
      assert tail[1..] == rest;
      assert Restrict(v, keys) == map[k := v.fields[k]];
    } else {
      ParseRenderFields(v, keys[1..], rest);
      assert tail[1..] == RenderFields(v, keys[1..]) + rest;
    }
  }

  // ---- Bytes ----

  /** `_canonical`: the bytes, or nothing when the encoder raises. */
  function Canonical(v: Json): Option<seq<Byte>> {
    if Dumpable(v) then Some(Encode(Render(v))) else None
  }

  /** `json.loads` on canonical bytes. */
  function Loads(bytes: seq<Byte>): Option<Json> {
    match Decode(bytes)
    case None => None
    case Some(s) =>
      match ParseValue(s)
      case Bad => None
      case Got(v, rest) => if rest == [] then Some(v) else None
  }

  /** Decoding inverts canonical encoding. */
  lemma LoadsCanonical(v: Json, bytes: seq<Byte>)
    requires Canonical(v) == Some(bytes)
    ensures Loads(bytes) == Some(v)
  {
    hide Decode, Encode, Render, ParseValue;
    DecodeEncode(Render(v));
    ParseRender(v, []);
    assert Render(v) + [] == Render(v);
  }

  /** Equal canonical bytes mean equal values. */
  lemma CanonicalInjective(v: Json, w: Json)
    requires Canonical(v).Some? && Canonical(v) == Canonical(w)
    ensures v == w
  {
    hide Canonical, Loads;
    LoadsCanonical(v, Canonical(v).value);
    LoadsCanonical(w, Canonical(v).value);
  }
}
