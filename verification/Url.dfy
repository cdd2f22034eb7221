/** Percent-coding and query strings (sections 2.1 and 2.3 of RFC 3986), over byte strings. */
module Url {
  import opened Common

  /** A string of bytes. */
  predicate Octets(s: string) {
    forall i :: 0 <= i < |s| ==> s[i] < 256 as char
  }

  /** Characters that stand for themselves: alphanumerics and `-_.~`. */
  predicate Unreserved(c: char) {
    '0' <= c <= '9' || 'A' <= c <= 'Z' || 'a' <= c <= 'z' || c == '-' || c == '_' || c == '.' || c == '~'
  }

  function HexDigit(n: nat): (c: char)
    requires n < 16
    ensures HexValue(c) == Some(n) && Unreserved(c)
  {
    if n < 10 then '0' + n as char else 'A' + (n - 10) as char
  }

  function HexValue(c: char): Option<nat> {
    if '0' <= c <= '9' then Some((c - '0') as nat)
    else if 'A' <= c <= 'F' then Some((c - 'A') as nat + 10)
    else if 'a' <= c <= 'f' then Some((c - 'a') as nat + 10)
    else None
  }

  predicate Space(c: char) {
    c == ' ' || '\t' <= c <= '\r'
  }

  /** `istringstream(two characters) >> hex >> int`: leading white space and a sign are accepted, and reading
      stops at the first character that is not a digit; "0x" has no digits. */
  function ParseHex(a: char, b: char): Option<int> {
    if Space(a) then Widen(HexValue(b), 1)
    else if a == '+' then Widen(HexValue(b), 1)
    else if a == '-' then Widen(HexValue(b), -1)
    else match HexValue(a)
      case None => None
      case Some(high) =>
        if high == 0 && (b == 'x' || b == 'X') then None
        else match HexValue(b)
          case None => Some(high)
          case Some(low) => Some(16 * high + low)
  }

  function Widen(v: Option<nat>, sign: int): Option<int> {
    if v.None? then None else Some(sign * v.value)
  }

  function EncodeChar(c: char): string {
    if Unreserved(c) then [c] else ['%', HexDigit(c as nat / 16 % 16), HexDigit(c as nat % 16)]
  }

  function Encode(s: string): (r: string)
    ensures s == [] <==> r == []
  {
    if s == [] then [] else EncodeChar(s[0]) + Encode(s[1..])
  }

  /** Encoded text has only unreserved characters and `%`. */
  lemma {:induction false} EncodeAlphabet(s: string)
    ensures forall i :: 0 <= i < |Encode(s)| ==> Unreserved(Encode(s)[i]) || Encode(s)[i] == '%'
  {
    if s != [] {
      EncodeAlphabet(s[1..]);
    }
  }

  function Decode(s: string): (r: string) {
    if s == [] then []
    else if s[0] == '%' && |s| > 2 && ParseHex(s[1], s[2]).Some? then
      [(ParseHex(s[1], s[2]).value % 256) as char] + Decode(s[3..])
    else [if s[0] == '+' then ' ' else s[0]] + Decode(s[1..])
  }

  lemma {:induction false} DecodeEncodedChar(c: char, rest: string)
    requires c < 256 as char
    ensures Decode(EncodeChar(c) + rest) == [c] + Decode(rest)
  {
    if Unreserved(c) {
      assert ([c] + rest)[1..] == rest;
    } else {
      HexPair(c);
      DecodeEscape(HexDigit(c as nat / 16 % 16), HexDigit(c as nat % 16), rest);
    }
  }

  lemma {:induction false} HexPair(c: char)
    requires c < 256 as char
    ensures ParseHex(HexDigit(c as nat / 16 % 16), HexDigit(c as nat % 16)) == Some(c as int)
  {
  }

  lemma {:induction false} DecodeEscape(high: char, low: char, rest: string)
    requires ParseHex(high, low).Some?
    ensures Decode(['%', high, low] + rest) == [(ParseHex(high, low).value % 256) as char] + Decode(rest)
  {
  }

  /** Percent-coding loses nothing: for every byte string, decoding the encoding gives it back. */
  lemma {:induction false} DecodeEncode(s: string)
    requires Octets(s)
    ensures Decode(Encode(s)) == s
  {
    if s != [] {
      DecodeEncodedChar(s[0], Encode(s[1..]));
      DecodeEncode(s[1..]);
    }
  }

  method URLEncode(value: string) returns (escaped: string)
    ensures escaped == Encode(value)
  {
    escaped := [];
    for i := 0 to |value|
      invariant escaped + Encode(From(value, i)) == Encode(value)
    {
      EncodeStep(escaped, value, i);
      escaped := escaped + EncodeChar(value[i]);
    }
  }

  lemma {:induction false} EncodeStep(done: string, value: string, i: nat)
    requires i < |value|
    ensures done + Encode(From(value, i)) == (done + EncodeChar(value[i])) + Encode(From(value, i + 1))
  {
    assert From(value, i)[1..] == From(value, i + 1);
    Regroup(done, EncodeChar(value[i]), Encode(From(value, i + 1)));
  }

  /** `rest` is the text from index `i` on. */
  method URLDecode(value: string) returns (result: string)
    ensures result == Decode(value)
  {
    result := [];
    var rest := value;
    while rest != []
      invariant result + Decode(rest) == Decode(value)
      decreases |rest|
    {
      var piece, used := DecodeNext(rest);
      Regroup(result, piece, Decode(rest[used..]));
      result := result + piece;
      rest := rest[used..];
    }
  }

  lemma Regroup(a: string, b: string, c: string)
    ensures a + (b + c) == (a + b) + c
  {
  }

  /** The body of that loop: what the next characters decode to, and how many of them that takes. */
  method DecodeNext(rest: string) returns (piece: string, used: nat)
    requires rest != []
    ensures 1 <= used <= |rest| && Decode(rest) == piece + Decode(rest[used..])
  {
    if rest[0] == '%' {
      if |rest| > 2 {
        var decoded := ParseHex(rest[1], rest[2]);
        if decoded.Some? {
          return [(decoded.value % 256) as char], 3;
        }
        return [rest[0]], 1;
      }
      return [rest[0]], 1;
    } else if rest[0] == '+' {
      return " ", 1;
    }
    return [rest[0]], 1;
  }

  /** The codes of the hexadecimal digits: from 0x30, then from 0x41 or, in lower case, 0x61. */
  function UpperHex(n: nat): char
    requires n < 16
  {
    (if n < 10 then 0x30 + n else 0x41 + n - 10) as char
  }

  function LowerHex(n: nat): char
    requires n < 16
  {
    (if n < 10 then 0x30 + n else 0x61 + n - 10) as char
  }

  /** The unreserved characters of section 2.3 of RFC 3986 by their codes: digits, letters, and `-`, `.`, `_`, `~`. */
  predicate PlainCode(n: int) {
    0x30 <= n <= 0x39 || 0x41 <= n <= 0x5a || 0x61 <= n <= 0x7a || n == 0x2d || n == 0x2e || n == 0x5f || n == 0x7e
  }

  /** The encoding of one byte: itself if it is one of the unreserved characters, else two upper-case digits. */
  lemma {:induction false} EncodeCharIs(c: char)
    requires c < 256 as char
    ensures PlainCode(c as int) ==> EncodeChar(c) == [c]
    ensures !PlainCode(c as int) ==> EncodeChar(c) == ['%', UpperHex(c as int / 16), UpperHex(c as int % 16)]
  {
    var n := c as int;
    assert Unreserved(c) <==> PlainCode(n);
    HighDigit(n);
  }

  lemma {:induction false} HighDigit(n: nat)
    requires n < 256
    ensures n / 16 % 16 == n / 16 < 16
  {
  }

  /** Encoding works character by character. */
  lemma {:induction false} EncodeConcat(a: string, b: string)
    ensures Encode(a + b) == Encode(a) + Encode(b)
  {
    if a == [] {
      assert a + b == b;
    } else {
      EncodeConcat(a[1..], b);
      assert (a + b)[1..] == a[1..] + b;
      Regroup(EncodeChar(a[0]), Encode(a[1..]), Encode(b));
    }
  }

  /** `c` is a hexadecimal digit, of either case, of value `n`. */
  predicate HexIs(c: char, n: nat) {
    n < 16 && (c == UpperHex(n) || c == LowerHex(n))
  }

  lemma {:induction false} HexValueIs(c: char, n: nat)
    ensures HexValue(c) == Some(n) <==> HexIs(c, n)
  {
  }

  /** The two characters after a `%` are read as the number `v`: two digits; one digit before something that is not
      one (but not the `x` of "0x"); or white space or a sign before one digit. */
  ghost predicate Reads(a: char, b: char, v: int) {
    || (exists high: nat, low: nat :: HexIs(a, high) && HexIs(b, low) && v == 16 * high + low)
    || (exists high: nat :: HexIs(a, high) && NoHex(b) && !(a == '0' && b in "xX") && v == high)
    || (exists low: nat :: (a in " \t\n\U{0B}\U{0C}\r" || a == '+') && HexIs(b, low) && v == low)
    || (exists low: nat :: a == '-' && HexIs(b, low) && v == 0 - low)
  }

  ghost predicate NoHex(c: char) {
    forall n: nat :: !HexIs(c, n)
  }

  lemma {:induction false} ParseHexIs(a: char, b: char, v: int)
    ensures ParseHex(a, b) == Some(v) <==> Reads(a, b, v)
  {
    HexCases(a);
    HexCases(b);
  }

  lemma {:induction false} HexCases(c: char)
    ensures HexValue(c).Some? ==> HexIs(c, HexValue(c).value)
    ensures HexValue(c).None? ==> NoHex(c)
    ensures forall n: nat :: HexIs(c, n) ==> HexValue(c) == Some(n)
  {
    forall n: nat ensures HexIs(c, n) <==> HexValue(c) == Some(n) {
      HexValueIs(c, n);
    }
  }

  /** Decoding, piece by piece and on every input. A `+` is a space. Any other character than `%` is itself. A `%`
      with a number in the two characters behind it is that byte. A `%` with fewer than two characters behind it, or
      with no number in them, is itself. */
  lemma {:induction false} DecodePieces(c: char, rest: string)
    ensures c == '+' ==> Decode([c] + rest) == " " + Decode(rest)
    ensures c != '+' && c != '%' ==> Decode([c] + rest) == [c] + Decode(rest)
    ensures c == '%' && |rest| < 2 ==> Decode([c] + rest) == "%" + Decode(rest)
    ensures c == '%' && |rest| >= 2 && (forall v :: !Reads(rest[0], rest[1], v)) ==>
      Decode([c] + rest) == "%" + Decode(rest)
    ensures c == '%' && |rest| >= 2 ==> forall v :: Reads(rest[0], rest[1], v) ==>
      Decode([c] + rest) == [(v % 256) as char] + Decode(rest[2..])
  {
    var s := [c] + rest;
    assert s[1..] == rest;
    if c == '%' && |rest| >= 2 {
      assert s[3..] == rest[2..];
      forall v ensures ParseHex(rest[0], rest[1]) == Some(v) <==> Reads(rest[0], rest[1], v) {
        ParseHexIs(rest[0], rest[1], v);
      }
    }
  }

  lemma {:induction false} HexPairReads(a: char, b: char, high: nat, low: nat)
    requires HexIs(a, high) && HexIs(b, low)
    ensures ParseHex(a, b) == Some(16 * high + low)
  {
    HexValueIs(a, high);
    HexValueIs(b, low);
  }

  /** A two-digit escape is the byte it spells, in either case. */
  lemma {:induction false} DecodeHexPair(a: char, b: char, high: nat, low: nat, rest: string)
    requires HexIs(a, high) && HexIs(b, low)
    ensures Decode(['%', a, b] + rest) == [(16 * high + low) as char] + Decode(rest)
  {
    HexPairReads(a, b, high, low);
    DecodeEscape(a, b, rest);
  }

  /** Text can be decoded in parts, as long as no `%` stands among the last two characters of the first. */
  lemma {:induction false} DecodeConcat(a: string, b: string)
    requires forall i :: 0 <= i < |a| && |a| - 2 <= i ==> a[i] != '%'
    ensures Decode(a + b) == Decode(a) + Decode(b)
    decreases |a|
  {
    if a == [] {
      assert a + b == b;
    } else if a[0] == '%' && ParseHex(a[1], a[2]).Some? {
      DecodeConcat(a[3..], b);
      assert (a + b)[3..] == a[3..] + b && (a + b)[1] == a[1] && (a + b)[2] == a[2];
      Regroup([(ParseHex(a[1], a[2]).value % 256) as char], Decode(a[3..]), Decode(b));
    } else {
      DecodeConcat(a[1..], b);
      assert (a + b)[1..] == a[1..] + b;
      Regroup([if a[0] == '+' then ' ' else a[0]], Decode(a[1..]), Decode(b));
    }
  }

  type Params = map<string, string>

  /** The position of the first `c`, or the length. */
  function Find(s: string, c: char): (i: nat)
    ensures i <= |s|
  {
    if s == [] || s[0] == c then 0 else 1 + Find(s[1..], c)
  }

  /** That position holds `c`, and none before it does. */
  lemma {:induction false} FindIs(s: string, c: char)
    ensures Find(s, c) < |s| ==> s[Find(s, c)] == c
    ensures forall j :: 0 <= j < Find(s, c) ==> s[j] != c
  {
    if s != [] && s[0] != c {
      FindIs(s[1..], c);
      assert forall j :: 0 < j < |s| ==> s[j] == s[1..][j - 1];
    }
  }

  /** One `key=value`, `key` or empty parameter. */
  function Store(param: string, params: Params): Params {
    var eq := Find(param, '=');
    if eq < |param| then params[Decode(param[..eq]) := Decode(param[eq + 1..])]
    else if param != [] then params[Decode(param) := ""]
    else params
  }

  /** The parameters of a query string, left to right, each handed to `store`. */
  function EachParam<P>(store: (string, P) -> P, query: string, params: P): P
    decreases |query|
  {
    var amp := Find(query, '&');
    if amp < |query| then EachParam(store, query[amp + 1..], store(query[..amp], params)) else store(query, params)
  }

  function Parse(query: string, params: Params): Params {
    EachParam(Store, query, params)
  }

  method ParseQueryString(query: string, params: Params) returns (params': Params)
    ensures params' == Parse(query, params)
  {
    if query == [] {
      return params;
    }
    params' := StoreEach(Store, query, params);
  }

  /** Two query strings joined by `&` are parsed one after the other, so a later parameter overrides an earlier. */
  lemma {:induction false} ParseConcat(a: string, b: string, params: Params)
    ensures Parse(a + "&" + b, params) == Parse(b, Parse(a, params))
  {
    EachConcat(Store, a, b, params);
  }

  lemma {:induction false} EachConcat<P>(store: (string, P) -> P, a: string, b: string, params: P)
    ensures EachParam(store, a + "&" + b, params) == EachParam(store, b, EachParam(store, a, params))
    decreases |a|
  {
    var n := Find(a, '&');
    Regroup(a, "&", b);
    FindFront(a, b);
    JoinCut(a, b, n);
    if n < |a| {
      EachConcat(store, a[n + 1..], b, store(a[..n], params));
    }
  }

  lemma {:induction false} JoinCut(a: string, b: string, n: nat)
    requires n <= |a|
    ensures var text := a + ("&" + b);
      if n < |a| then text[..n] == a[..n] && text[n + 1..] == a[n + 1..] + "&" + b
      else text[..n] == a && text[n + 1..] == b
  {
  }

  lemma {:induction false} FindFront(a: string, b: string)
    ensures Find(a + ("&" + b), '&') == Find(a, '&')
  {
    if a == [] {
      assert a + ("&" + b) == "&" + b;
    } else if a[0] != '&' {
      FindFront(a[1..], b);
      assert (a + ("&" + b))[1..] == a[1..] + ("&" + b);
    }
  }

  /** One parameter: `key=value` is cut at its first `=`, a bare key gets the empty value, nothing is nothing. */
  lemma {:induction false} ParseOne(k: string, v: string, params: Params)
    requires '&' !in k && '=' !in k && '&' !in v
    ensures Parse(k + "=" + v, params) == params[Decode(k) := Decode(v)]
    ensures Parse(k, params) == if k == [] then params else params[Decode(k) := ""]
  {
    var item := k + ("=" + v);
    Regroup(k, "=", v);
    assert forall i :: 0 <= i < |item| ==>
        item[i] == if i < |k| then k[i] else if i == |k| then '=' else v[i - |k| - 1];
    ParseLast(item, params);
    StoreAt(k, v, params);
    ParseLast(k, params);
    StorePlain(k, params);
  }

  /** The find loop, for any way of storing a parameter; `rest` is the query from `param_start` on. */
  method StoreEach<P>(store: (string, P) -> P, query: string, params: P) returns (params': P)
    ensures params' == EachParam(store, query, params)
  {
    params' := params;
    var rest := query;
    var amp := Find(rest, '&');
    while amp < |rest|
      invariant amp == Find(rest, '&') && EachParam(store, rest, params') == EachParam(store, query, params)
      decreases |rest|
    {
      params' := store(rest[..amp], params');
      rest := rest[amp + 1..];
      amp := Find(rest, '&');
    }
    params' := store(rest, params');
  }

  /** One serialised parameter: the `=` only when there is a value. */
  function Item(key: string, value: string): string {
    Encode(key) + if value == [] then [] else "=" + Encode(value)
  }

  /** The parameters in the order the map enumerates them. */
  function Serialize(order: seq<string>, params: Params): string
    requires forall i :: 0 <= i < |order| ==> order[i] in params
  {
    if order == [] then []
    else if |order| == 1 then Item(order[0], params[order[0]])
    else Item(order[0], params[order[0]]) + "&" + Serialize(order[1..], params)
  }

  method SerializeQueryString(order: seq<string>, params: Params) returns (text: string)
    requires forall i :: 0 <= i < |order| ==> order[i] in params
    ensures text == Serialize(order, params)
  {
    text := [];
    if order == [] {
      return;
    }
    text := Item(order[0], params[order[0]]);
    SerializeTail(order, params);
    for i := 1 to |order|
      invariant Serialize(order, params) == text + Tail(order[i..], params)
    {
      TailStep(text, order, params, i);
      text := text + "&";
      text := text + Item(order[i], params[order[i]]);
    }
    assert order[|order|..] == [];
  }

  /** What follows an item: every further one behind its `&`. */
  function Tail(order: seq<string>, params: Params): string
    requires forall i :: 0 <= i < |order| ==> order[i] in params
  {
    if order == [] then [] else "&" + Item(order[0], params[order[0]]) + Tail(order[1..], params)
  }

  lemma {:induction false} SerializeTail(order: seq<string>, params: Params)
    requires order != [] && forall i :: 0 <= i < |order| ==> order[i] in params
    ensures Serialize(order, params) == Item(order[0], params[order[0]]) + Tail(order[1..], params)
  {
    var first := Item(order[0], params[order[0]]);
    if |order| == 1 {
      assert order[1..] == [] && first + [] == first;
    } else {
      SerializeTail(order[1..], params);
      AmpersandJoin(first, Item(order[1], params[order[1]]), Tail(order[1..][1..], params));
    }
  }

  /** Serialised text, written out: items joined by single `&`s, an item being its key, or key and value around a
      `=` when there is a value. */
  lemma {:induction false} SerializeIs(order: seq<string>, key: string, params: Params)
    requires key in params && forall i :: 0 <= i < |order| ==> order[i] in params
    ensures Serialize(order + [key], params)
      == if order == [] then Item(key, params[key]) else Serialize(order, params) + "&" + Item(key, params[key])
  {
    var all, item := order + [key], Item(key, params[key]);
    if order == [] {
      assert all == [key];
    } else {
      SerializeIs(order[1..], key, params);
      assert all[1..] == order[1..] + [key] && all[0] == order[0];
      if |order| == 1 {
        assert order[1..] == [];
      } else {
        AmpersandLast(Item(order[0], params[order[0]]), Serialize(order[1..], params), item);
      }
    }
  }

  lemma {:induction false} AmpersandLast(first: string, rest: string, item: string)
    ensures first + "&" + (rest + "&" + item) == first + "&" + rest + "&" + item
  {
  }

  lemma {:induction false} ItemIs(key: string, value: string)
    ensures Item(key, value) == if value == [] then Encode(key) else Encode(key) + "=" + Encode(value)
  {
    Regroup(Encode(key), "=", Encode(value));
  }

  lemma {:induction false} AmpersandJoin(a: string, b: string, c: string)
    ensures a + "&" + (b + c) == a + ("&" + b + c)
  {
  }

  lemma {:induction false} TailStep(text: string, order: seq<string>, params: Params, i: nat)
    requires i < |order| && forall j :: 0 <= j < |order| ==> order[j] in params
    ensures text + Tail(order[i..], params) ==
        text + "&" + Item(order[i], params[order[i]]) + Tail(order[i + 1..], params)
  {
    assert order[i..][1..] == order[i + 1..];
    var item, tail := Item(order[i], params[order[i]]), Tail(order[i + 1..], params);
    assert Tail(order[i..], params) == "&" + item + tail;
    assert text + ("&" + item + tail) == text + "&" + item + tail;
  }

  /** `order` enumerates the map: every key, once each. */
  predicate Enumerates(order: seq<string>, params: Params) {
    && (forall i :: 0 <= i < |order| ==> order[i] in params)
    && (forall i, j :: 0 <= i < j < |order| ==> order[i] != order[j])
    && (forall k :: k in params ==> k in order)
  }

  predicate AllOctets(params: Params) {
    forall k :: k in params ==> Octets(k) && Octets(params[k])
  }

  /** An encoded string has no separator in it. */
  lemma {:induction false} FindAfter(a: string, c: char, rest: string)
    requires forall i :: 0 <= i < |a| ==> a[i] != c
    ensures Find(a + rest, c) == |a| + Find(rest, c)
  {
    if a == [] {
      assert a + rest == rest;
    } else {
      FindAfter(a[1..], c, rest);
      assert (a + rest)[1..] == a[1..] + rest;
    }
  }

  /** Parsing one item stores exactly its key and value, except that the empty key with the empty value is lost. */
  lemma {:induction false} StoreItem(key: string, value: string, params: Params)
    requires Octets(key) && Octets(value)
    ensures Store(Item(key, value), params) == if key == [] && value == [] then params else params[key := value]
  {
    if value == [] {
      StoreKey(key, params);
    } else {
      StoreKeyValue(key, value, params);
    }
  }

  lemma {:induction false} StoreKey(key: string, params: Params)
    requires Octets(key)
    ensures Store(Item(key, []), params) == if key == [] then params else params[key := ""]
  {
    DecodeEncode(key);
    EncodeAlphabet(key);
    StorePlain(Encode(key), params);
    assert Item(key, []) == Encode(key);
  }

  lemma {:induction false} StorePlain(item: string, params: Params)
    requires forall i :: 0 <= i < |item| ==> item[i] != '='
    ensures Store(item, params) == if item == [] then params else params[Decode(item) := ""]
  {
    FindAfter(item, '=', []);
    assert item + [] == item;
  }

  lemma {:induction false} StoreKeyValue(key: string, value: string, params: Params)
    requires Octets(key) && Octets(value) && value != []
    ensures Store(Item(key, value), params) == params[key := value]
  {
    var k, v := Encode(key), Encode(value);
    DecodeEncode(key);
    DecodeEncode(value);
    EncodeAlphabet(key);
    StoreAt(k, v, params);
  }

  lemma {:induction false} StoreAt(k: string, v: string, params: Params)
    requires forall i :: 0 <= i < |k| ==> k[i] != '='
    ensures Store(k + ("=" + v), params) == params[Decode(k) := Decode(v)]
  {
    FindAfter(k, '=', "=" + v);
    CutAt(k, "=", v);
  }

  lemma {:induction false} CutAt(a: string, sep: string, b: string)
    requires |sep| == 1
    ensures (a + (sep + b))[..|a|] == a && (a + (sep + b))[|a| + 1..] == b
  {
  }

  lemma {:induction false} ItemPlain(key: string, value: string)
    ensures forall i :: 0 <= i < |Item(key, value)| ==> Item(key, value)[i] != '&' && Item(key, value)[i] != '?'
  {
    EncodeAlphabet(key);
    EncodeAlphabet(value);
  }

  /** The updates a serialisation makes when parsed, in order. */
  function StoreAll(order: seq<string>, params: Params, into: Params): Params
    requires forall i :: 0 <= i < |order| ==> order[i] in params
  {
    if order == [] then into
    else
      var key, value := order[0], params[order[0]];
      StoreAll(order[1..], params, if key == [] && value == [] then into else into[key := value])
  }

  lemma {:induction false} ParseSerialized(order: seq<string>, params: Params, into: Params)
    requires (forall i :: 0 <= i < |order| ==> order[i] in params) && AllOctets(params)
    ensures Parse(Serialize(order, params), into) == StoreAll(order, params, into)
  {
    if order != [] {
      var key, value := order[0], params[order[0]];
      var item := Item(key, value);
      ItemPlain(key, value);
      StoreItem(key, value, into);
      if |order| == 1 {
        ParseLast(item, into);
        assert order[1..] == [];
      } else {
        ParseFirst(item, Serialize(order[1..], params), into);
        ParseSerialized(order[1..], params, Store(item, into));
      }
    }
  }

  lemma {:induction false} ParseLast(item: string, into: Params)
    requires forall i :: 0 <= i < |item| ==> item[i] != '&'
    ensures Parse(item, into) == Store(item, into)
  {
    FindIs(item, '&');
  }

  lemma {:induction false} ParseFirst(item: string, rest: string, into: Params)
    requires forall i :: 0 <= i < |item| ==> item[i] != '&'
    ensures Parse(item + "&" + rest, into) == Parse(rest, Store(item, into))
  {
    var text := item + ("&" + rest);
    Regroup(item, "&", rest);
    FindAfter(item, '&', "&" + rest);
    CutAt(item, "&", rest);
  }

  lemma {:induction false} StoreAllIs(order: seq<string>, params: Params, into: Params, k: string)
    requires forall i :: 0 <= i < |order| ==> order[i] in params
    requires forall i, j :: 0 <= i < j < |order| ==> order[i] != order[j]
    ensures var r := StoreAll(order, params, into);
      if k in order && !(k == [] && params[k] == []) then k in r && r[k] == params[k]
      else (k in r <==> k in into) && (k in into ==> r[k] == into[k])
  {
    if order != [] {
      var next := if order[0] == [] && params[order[0]] == [] then into else into[order[0] := params[order[0]]];
      StoreAllIs(order[1..], params, next, k);
      assert order == [order[0]] + order[1..];
    }
  }

  /** Parsing inverts serialising, whatever order the map is enumerated in, exactly when the map does not give
      the empty key the empty value. */
  lemma {:induction false} ParseInvertsSerializeIff(order: seq<string>, params: Params)
    requires Enumerates(order, params) && AllOctets(params)
    ensures Parse(Serialize(order, params), map[]) == params <==> !("" in params && params[""] == "")
  {
    ParseSerialized(order, params, map[]);
    StoredBackIff(order, params);
  }

  lemma StoredBackIff(order: seq<string>, params: Params)
    requires Enumerates(order, params)
    ensures StoreAll(order, params, map[]) == params <==> !("" in params && params[""] == "")
  {
    var r := StoreAll(order, params, map[]);
    if "" in params && params[""] == "" {
      StoreAllIs(order, params, map[], "");
    } else {
      forall k: string ensures (k in r <==> k in params) && (k in params ==> r[k] == params[k]) {
        StoreAllIs(order, params, map[], k);
      }
    }
  }

  /** Parsing adds to the map it is given. */
  lemma {:induction false} ParseSerializedInto(order: seq<string>, params: Params, into: Params)
    requires Enumerates(order, params) && AllOctets(params) && !("" in params && params[""] == "")
    ensures Parse(Serialize(order, params), into) == into + params
  {
    ParseSerialized(order, params, into);
    StoredOver(order, params, into);
  }

  lemma StoredOver(order: seq<string>, params: Params, into: Params)
    requires Enumerates(order, params) && !("" in params && params[""] == "")
    ensures StoreAll(order, params, into) == into + params
  {
    var r := StoreAll(order, params, into);
    forall k: string ensures k in r <==> k in into + params ensures k in r ==> r[k] == (into + params)[k] {
      StoreAllIs(order, params, into, k);
    }
  }

  function BuildPathWithQuery(path: string, order: seq<string>, query: Params): (r: string)
    requires forall i :: 0 <= i < |order| ==> order[i] in query
    ensures r != [] && r[0] == '/'
  {
    var base := if path == [] then "/" else path;
    var rooted := if base[0] != '/' then "/" + base else base;
    if query != map[] then rooted + "?" + Serialize(order, query) else rooted
  }

  /** None is the source's `false`; a path without `?` replaces the query by the empty one. */
  function ParsePathWithQuery(text: string, query: Params): Option<(string, Params)> {
    if text == [] then None else
      var q := Find(text, '?');
      if q < |text| then Some((text[..q], Parse(text[q + 1..], query))) else Some((text, map[]))
  }

  /** Parsing a built path gives back path and query exactly when the path starts with `/` and has no `?`, and
      the query does not give the empty key the empty value. */
  lemma {:induction false} PathRoundTripIff(path: string, order: seq<string>, query: Params)
    requires Enumerates(order, query) && AllOctets(query)
    ensures ParsePathWithQuery(BuildPathWithQuery(path, order, query), map[]) == Some((path, query))
       <==> path != [] && path[0] == '/' && '?' !in path && !("" in query && query[""] == "")
  {
    ParseInvertsSerializeIff(order, query);
    if path == [] || path[0] != '/' {
      BuiltPathIsRooted(path, order, query);
    } else if '?' in path {
      QuestionMarkCutsPath(path, order, query);
    } else {
      PlainPathKept(path, order, query);
    }
  }

  lemma {:induction false} BuiltPathIsRooted(path: string, order: seq<string>, query: Params)
    requires forall i :: 0 <= i < |order| ==> order[i] in query
    ensures var r := ParsePathWithQuery(BuildPathWithQuery(path, order, query), map[]);
      r.Some? && r.value.0 != [] && r.value.0[0] == '/'
  {
  }

  lemma {:induction false} QuestionMarkCutsPath(path: string, order: seq<string>, query: Params)
    requires (forall i :: 0 <= i < |order| ==> order[i] in query) && path != [] && path[0] == '/' && '?' in path
    ensures var r := ParsePathWithQuery(BuildPathWithQuery(path, order, query), map[]);
      r.Some? && |r.value.0| < |path|
  {
    var text := BuildPathWithQuery(path, order, query);
    FindIs(text, '?');
    var i :| 0 <= i < |path| && path[i] == '?';
    assert text[i] == '?';
  }

  lemma {:induction false} PlainPathKept(path: string, order: seq<string>, query: Params)
    requires (forall i :: 0 <= i < |order| ==> order[i] in query) && path != [] && path[0] == '/' && '?' !in path
    ensures ParsePathWithQuery(BuildPathWithQuery(path, order, query), map[])
         == Some((path, if query == map[] then map[] else Parse(Serialize(order, query), map[])))
  {
    if query == map[] {
      FindAfter(path, '?', []);
      assert path + [] == path;
    } else {
      var rest := Serialize(order, query);
      assert path + "?" + rest == path + ("?" + rest);
      FindAfter(path, '?', "?" + rest);
      CutAt(path, "?", rest);
    }
  }

  /** A built path: rooted, and followed by the query only if there is one. */
  lemma {:induction false} BuildPathIs(path: string, order: seq<string>, query: Params)
    requires forall i :: 0 <= i < |order| ==> order[i] in query
    ensures var rooted := if path != [] && path[0] == '/' then path else "/" + path;
      BuildPathWithQuery(path, order, query)
      == if query == map[] then rooted else rooted + "?" + Serialize(order, query)
  {
    assert "/" + [] == "/";
  }

  /** Any path text is cut at its first `?`; the query behind it is added to the given one, and without a `?` the
      given one is dropped. */
  lemma {:induction false} ParsePathIs(path: string, rest: string, query: Params)
    requires '?' !in path
    ensures ParsePathWithQuery(path + "?" + rest, query) == Some((path, Parse(rest, query)))
    ensures ParsePathWithQuery(path, query) == if path == [] then None else Some((path, map[]))
  {
    Regroup(path, "?", rest);
    FindAfter(path, '?', "?" + rest);
    CutAt(path, "?", rest);
    FindAfter(path, '?', []);
    assert path + [] == path;
  }
}
