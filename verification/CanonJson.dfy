/**
 Canonical JSON text (utils/canon_json.py): `json.dumps` with sorted keys,
 minimal separators and no escaping of non-ASCII characters.

 An object is the sequence of its members in insertion order, as a Python dict
 keeps them; `Valid` says that keys are unique at every level. The canonical
 text sorts the members of every object by key and then prints them. A parser
 for that text is the partner of the printer.
 */
module CanonJson {
  import opened Wrappers
  import opened PyText
  import opened Collections
  import opened Numerals
  import Utf8

  datatype Member = Member(key: string, value: Json)

  datatype Json =
    | Null
    | Bool(b: bool)
    | Int(n: int)
    | Str(s: string)
    | Arr(items: seq<Json>)
    | Obj(members: seq<Member>)

  // ----- values ----------------------------------------------------------------

  predicate DistinctKeys(ms: seq<Member>) {
    forall i, j | 0 <= i < j < |ms| :: ms[i].key != ms[j].key
  }

  predicate Valid(v: Json)
    decreases v
  {
    match v
    case Arr(items) => forall i | 0 <= i < |items| :: Valid(items[i])
    case Obj(ms) => DistinctKeys(ms) && forall i | 0 <= i < |ms| :: Valid(ms[i].value)
    case _ => true
  }

  /** Some member of the object has this key and a value equal to v. */
  predicate HasEqual(v: Json, key: string, ms: seq<Member>, boolIsInt: bool)
    decreases v, 1
  {
    exists j | 0 <= j < |ms| :: ms[j].key == key && Same(v, ms[j].value, boolIsInt)
  }

  /**
   Equality of decoded JSON, where the order of an object's members does not
   matter. Python's `==` also identifies `True` with `1` and `False` with `0`;
   `boolIsInt` says whether to do so.
   */
  predicate Same(v: Json, w: Json, boolIsInt: bool)
    decreases v, 0
  {
    match (v, w)
    case (Arr(xs), Arr(ys)) =>
      |xs| == |ys| && forall i | 0 <= i < |xs| :: Same(xs[i], ys[i], boolIsInt)
    case (Obj(ms), Obj(ns)) =>
      && |ms| == |ns|
      && forall i | 0 <= i < |ms| :: HasEqual(ms[i].value, ms[i].key, ns, boolIsInt)
    case (Bool(b), Int(n)) => boolIsInt && n == (if b then 1 else 0)
    case (Int(n), Bool(b)) => boolIsInt && n == (if b then 1 else 0)
    case _ => v == w
  }

  /** What Python identifies: true with one, false with zero, and nothing else of different kinds. */
  lemma BoolIsInt(b: bool, n: int)
    ensures Same(Bool(b), Int(n), true) == Same(Int(n), Bool(b), true) == (if b then n == 1 else n == 0)
    ensures !Same(Bool(b), Int(n), false) && !Same(Int(n), Bool(b), false)
  {
  }

  /** Equal up to the order of object keys. */
  predicate Equal(v: Json, w: Json) {
    Same(v, w, false)
  }

  /** `obj.get(key)` */
  function Get(ms: seq<Member>, key: string): Option<Json> {
    if ms == [] then None
    else if ms[0].key == key then Some(ms[0].value)
    else Get(ms[1..], key)
  }

  // ----- canonical form ----------------------------------------------------------

  predicate KeysAscend(ms: seq<Member>) {
    forall i, j | 0 <= i < j < |ms| :: Before(ms[i].key, ms[j].key)
  }

  function Insert(m: Member, ms: seq<Member>): seq<Member> {
    if ms == [] || Before(m.key, ms[0].key) then [m] + ms
    else [ms[0]] + Insert(m, ms[1..])
  }

  /** Sort every object's members by key, from the inside out. */
  function Canon(v: Json): Json
    decreases v, 1
  {
    match v
    case Arr(items) => Arr(CanonItems(items))
    case Obj(ms) => Obj(CanonMembers(ms))
    case _ => v
  }

  function CanonItems(items: seq<Json>): seq<Json>
    decreases items, 0
  {
    if items == [] then [] else [Canon(items[0])] + CanonItems(items[1..])
  }

  function CanonMembers(ms: seq<Member>): seq<Member>
    decreases ms, 0
  {
    if ms == [] then []
    else Insert(Member(ms[0].key, Canon(ms[0].value)), CanonMembers(ms[1..]))
  }

  // ----- printing ----------------------------------------------------------------

  function HexDigit(d: nat): char
    requires d < 16
  {
    "0123456789abcdef"[d]
  }

  /** The escapes of RFC 8259 section 7 that `json.dumps(ensure_ascii=False)` uses. */
  function Escape(c: char): string {
    if c == '"' then "\\\""
    else if c == '\\' then "\\\\"
    else if c == '\n' then "\\n"
    else if c == '\r' then "\\r"
    else if c == '\t' then "\\t"
    else if c == 8 as char then "\\b"
    else if c == 12 as char then "\\f"
    else if c < ' ' then "\\u00" + [HexDigit(c as int / 16), HexDigit(c as int % 16)]
    else [c]
  }

  function EscapeAll(s: string): string {
    if s == [] then [] else Escape(s[0]) + EscapeAll(s[1..])
  }

  function Quote(s: string): string {
    "\"" + EscapeAll(s) + "\""
  }

  /** The JSON text of a value, members in the order given. */
  function Emit(v: Json): string
    decreases v, 1
  {
    match v
    case Null => "null"
    case Bool(b) => if b then "true" else "false"
    case Int(n) => if n < 0 then "-" + Digits(-n) else Digits(n)
    case Str(s) => Quote(s)
    case Arr(items) => "[" + EmitItems(items) + "]"
    case Obj(ms) => "{" + EmitMembers(ms) + "}"
  }

  function EmitItems(items: seq<Json>): string
    decreases items, 0
  {
    if items == [] then ""
    else if |items| == 1 then Emit(items[0])
    else Emit(items[0]) + "," + EmitItems(items[1..])
  }

  function EmitMember(m: Member): string
    decreases m, 0
  {
    Quote(m.key) + ":" + Emit(m.value)
  }

  function EmitMembers(ms: seq<Member>): string
    decreases ms, 0
  {
    if ms == [] then ""
    else if |ms| == 1 then EmitMember(ms[0])
    else EmitMember(ms[0]) + "," + EmitMembers(ms[1..])
  }

  /** `json.dumps(obj, ensure_ascii=False, sort_keys=True, separators=(",", ":"))` */
  function CanonText(v: Json): string {
    Emit(Canon(v))
  }

  /** `canon_json_bytes(obj)` */
  function CanonBytes(v: Json): seq<Utf8.Byte> {
    Utf8.Encode(CanonText(v))
  }

  // ----- parsing -----------------------------------------------------------------

  datatype Parsed<T> = Parsed(value: T, rest: string)

  function HexValue(c: char): Option<nat> {
    if '0' <= c <= '9' then Some(c as int - '0' as int)
    else if 'a' <= c <= 'f' then Some(c as int - 'a' as int + 10)
    else None
  }

  /** One character of a string body, escaped or not. */
  function ParseChar(s: string): (r: Option<Parsed<char>>)
    ensures r.Some? ==> |r.value.rest| < |s|
  {
    if s == [] || s[0] == '"' || s[0] < ' ' then None
    else if s[0] != '\\' then Some(Parsed(s[0], s[1..]))
    else if |s| < 2 then None
    else if s[1] == '"' || s[1] == '\\' then Some(Parsed(s[1], s[2..]))
    else if s[1] == 'n' then Some(Parsed('\n', s[2..]))
    else if s[1] == 'r' then Some(Parsed('\r', s[2..]))
    else if s[1] == 't' then Some(Parsed('\t', s[2..]))
    else if s[1] == 'b' then Some(Parsed(8 as char, s[2..]))
    else if s[1] == 'f' then Some(Parsed(12 as char, s[2..]))
    else if s[1] == 'u' && |s| >= 6 && s[2] == '0' && s[3] == '0' then
      match (HexValue(s[4]), HexValue(s[5]))
      case (Some(h), Some(l)) => Some(Parsed((16 * h + l) as char, s[6..]))
      case _ => None
    else None
  }

  /** The rest of a string body up to and including the closing quote. */
  function ParseBody(s: string): (r: Option<Parsed<string>>)
    ensures r.Some? ==> |r.value.rest| < |s|
    decreases |s|
  {
    if s != [] && s[0] == '"' then Some(Parsed([], s[1..]))
    else
      match ParseChar(s)
      case None => None
      case Some(c) =>
        match ParseBody(c.rest)
        case None => None
        case Some(tail) => Some(Parsed([c.value] + tail.value, tail.rest))
  }

  function ParseNumber(s: string): (r: Option<Parsed<Json>>)
    ensures r.Some? ==> |r.value.rest| < |s|
  {
    var negative := s != [] && s[0] == '-';
    var t := if negative then s[1..] else s;
    var k := DigitSpan(t);
    if k == 0 then None
    else
      var n: int := ValueOf(t[..k]);
      Some(Parsed(Int(if negative then -n else n), t[k..]))
  }

  function ParseWord(s: string, word: string, v: Json): (r: Option<Parsed<Json>>)
    requires word != []
    ensures r.Some? ==> |r.value.rest| < |s|
  {
    if word <= s then Some(Parsed(v, s[|word|..])) else None
  }

  function ParseValue(s: string): (r: Option<Parsed<Json>>)
    ensures r.Some? ==> |r.value.rest| < |s|
    decreases |s|, 1
  {
    if s == [] then None
    else if s[0] == 'n' then ParseWord(s, "null", Null)
    else if s[0] == 't' then ParseWord(s, "true", Bool(true))
    else if s[0] == 'f' then ParseWord(s, "false", Bool(false))
    else if s[0] == '"' then
      match ParseBody(s[1..])
      case None => None
      case Some(p) => Some(Parsed(Str(p.value), p.rest))
    else if s[0] == '[' then
      if |s| > 1 && s[1] == ']' then Some(Parsed(Arr([]), s[2..]))
      else
        match ParseItems(s[1..])
        case None => None
        case Some(p) => Some(Parsed(Arr(p.value), p.rest))
    else if s[0] == '{' then
      if |s| > 1 && s[1] == '}' then Some(Parsed(Obj([]), s[2..]))
      else
        match ParseMembers(s[1..])
        case None => None
        case Some(p) => Some(Parsed(Obj(p.value), p.rest))
    else ParseNumber(s)
  }

  /** One or more comma-separated values and the closing bracket. */
  function ParseItems(s: string): (r: Option<Parsed<seq<Json>>>)
    ensures r.Some? ==> |r.value.rest| < |s|
    decreases |s|, 2
  {
    match ParseValue(s)
    case None => None
    case Some(p) =>
      if p.rest != [] && p.rest[0] == ']' then Some(Parsed([p.value], p.rest[1..]))
      else if p.rest != [] && p.rest[0] == ',' then
        match ParseItems(p.rest[1..])
        case None => None
        case Some(tail) => Some(Parsed([p.value] + tail.value, tail.rest))
      else None
  }

  function ParseMember(s: string): (r: Option<Parsed<Member>>)
    ensures r.Some? ==> |r.value.rest| < |s|
    decreases |s|, 2
  {
    if s == [] || s[0] != '"' then None
    else
      match ParseBody(s[1..])
      case None => None
      case Some(k) =>
        if k.rest == [] || k.rest[0] != ':' then None
        else
          match ParseValue(k.rest[1..])
          case None => None
          case Some(p) => Some(Parsed(Member(k.value, p.value), p.rest))
  }

  function ParseMembers(s: string): (r: Option<Parsed<seq<Member>>>)
    ensures r.Some? ==> |r.value.rest| < |s|
    decreases |s|, 3
  {
    match ParseMember(s)
    case None => None
    case Some(p) =>
      if p.rest != [] && p.rest[0] == '}' then Some(Parsed([p.value], p.rest[1..]))
      else if p.rest != [] && p.rest[0] == ',' then
        match ParseMembers(p.rest[1..])
        case None => None
        case Some(tail) => Some(Parsed([p.value] + tail.value, tail.rest))
      else None
  }

  // ----- the parser undoes the printer --------------------------------------------

  lemma ParseCharEscaped(c: char, rest: string)
    ensures ParseChar(Escape(c) + rest) == Some(Parsed(c, rest))
    ensures Escape(c) != [] && Escape(c)[0] != '"'
  {
    if |Escape(c)| == 6 {
      ParseCharNumbered(c, rest);
    } else {
      assert (Escape(c) + rest)[|Escape(c)|..] == rest;
    }
  }

  /** The other control characters: a backslash, `u00` and two hexadecimal digits. */
  lemma ParseCharNumbered(c: char, rest: string)
    requires |Escape(c)| == 6
    ensures ParseChar(Escape(c) + rest) == Some(Parsed(c, rest))
  {
    var h, l := c as int / 16, c as int % 16;
    assert HexValue(HexDigit(h)) == Some(h) && HexValue(HexDigit(l)) == Some(l);
    assert 16 * h + l == c as int;
    assert (Escape(c) + rest)[6..] == rest;
  }

  lemma {:induction false} ParseBodyEscaped(s: string, rest: string)
    ensures ParseBody(EscapeAll(s) + "\"" + rest) == Some(Parsed(s, rest))
  {
    if s == [] {
      assert EscapeAll(s) + "\"" + rest == "\"" + rest;
    } else {
      var tail := EscapeAll(s[1..]) + "\"" + rest;
      BodyText(Escape(s[0]), EscapeAll(s[1..]), rest);
      ParseCharEscaped(s[0], tail);
      ParseBodyEscaped(s[1..], rest);
      assert [s[0]] + s[1..] == s;
    }
  }

  lemma BodyText(first: string, others: string, rest: string)
    requires first != []
    ensures first + others + "\"" + rest == first + (others + "\"" + rest)
    ensures (first + (others + "\"" + rest))[0] == first[0]
  {
  }

  /** What may follow a printed value: a number must not run on into a digit. */
  predicate Ends(v: Json, rest: string) {
    v.Int? && rest != [] ==> !IsDigit(rest[0])
  }

  lemma ParseDigits(m: nat, rest: string)
    requires rest != [] ==> !IsDigit(rest[0])
    ensures var t := Digits(m) + rest;
      DigitSpan(t) == |Digits(m)| > 0 && t[..DigitSpan(t)] == Digits(m) && t[DigitSpan(t)..] == rest
    ensures ValueOf(Digits(m)) == m && IsDigit(Digits(m)[0]) && (Digits(m) + rest)[0] == Digits(m)[0]
  {
    DigitsRoundTrip(m);
    SpanOfDigits(Digits(m), rest);
  }

  lemma ParseNumberPrinted(n: int, rest: string)
    requires Ends(Int(n), rest)
    ensures ParseNumber(Emit(Int(n)) + rest) == Some(Parsed(Int(n), rest))
    ensures IsDigit(Emit(Int(n))[0]) || Emit(Int(n))[0] == '-'
  {
    if n < 0 {
      ParseDigits(-n, rest);
      assert ("-" + Digits(-n) + rest)[1..] == Digits(-n) + rest;
    } else {
      ParseDigits(n, rest);
    }
  }

  lemma {:induction false} EmitStarts(v: Json)
    ensures Emit(v) != [] && Emit(v)[0] != ']' && Emit(v)[0] != '}'
  {
    if v.Int? {
      DigitsRoundTrip(if v.n < 0 then -v.n else v.n);
    }
  }

  lemma ParseEmitScalar(v: Json, rest: string)
    requires !v.Arr? && !v.Obj? && Ends(v, rest)
    ensures ParseValue(Emit(v) + rest) == Some(Parsed(v, rest))
  {
    match v
    case Int(n) =>
      ParseNumberPrinted(n, rest);
      assert (Emit(v) + rest)[0] == Emit(v)[0];
    case Str(t) =>
      ParseQuoted(t, rest);
    case _ =>
      ParseWordPrinted(v, rest);
  }

  lemma ParseQuoted(t: string, rest: string)
    ensures ParseValue(Quote(t) + rest) == Some(Parsed(Str(t), rest))
  {
    var body := EscapeAll(t) + "\"" + rest;
    assert Quote(t) + rest == "\"" + body && ("\"" + body)[1..] == body;
    ParseBodyEscaped(t, rest);
  }

  lemma ParseWordPrinted(v: Json, rest: string)
    requires v.Null? || v.Bool?
    ensures ParseValue(Emit(v) + rest) == Some(Parsed(v, rest))
  {
    assert (Emit(v) + rest)[|Emit(v)|..] == rest;
  }

  lemma ParseArray(inner: string, items: seq<Json>, rest: string)
    requires inner != [] && inner[0] != ']' && ParseItems(inner) == Some(Parsed(items, rest))
    ensures ParseValue("[" + inner) == Some(Parsed(Arr(items), rest))
  {
    var s := "[" + inner;
    assert s[0] == '[' && s[1] == inner[0] && s[1..] == inner;
  }

  lemma ParseObject(inner: string, ms: seq<Member>, rest: string)
    requires inner != [] && inner[0] != '}' && ParseMembers(inner) == Some(Parsed(ms, rest))
    ensures ParseValue("{" + inner) == Some(Parsed(Obj(ms), rest))
  {
    var s := "{" + inner;
    assert s[0] == '{' && s[1] == inner[0] && s[1..] == inner;
  }

  lemma ParseEmpty(rest: string)
    ensures ParseValue("[]" + rest) == Some(Parsed(Arr([]), rest))
    ensures ParseValue("{}" + rest) == Some(Parsed(Obj([]), rest))
  {
    assert ("[]" + rest)[2..] == rest && ("{}" + rest)[2..] == rest;
  }

  /**
   Every printed value is read back with the unread remainder intact. Holds for
   any order of members, so it does not depend on the sorting.
   */
  lemma {:induction false} ParseEmit(v: Json, rest: string)
    requires Ends(v, rest)
    ensures ParseValue(Emit(v) + rest) == Some(Parsed(v, rest))
    decreases v, 1
  {
    if v.Arr? {
      ParseEmitArray(v.items, rest);
    } else if v.Obj? {
      ParseEmitObject(v.members, rest);
    } else {
      ParseEmitScalar(v, rest);
    }
  }

  lemma {:induction false} ParseEmitArray(items: seq<Json>, rest: string)
    ensures ParseValue(Emit(Arr(items)) + rest) == Some(Parsed(Arr(items), rest))
    decreases items, 1
  {
    ParseEmpty(rest);
    if items == [] {
      assert Emit(Arr(items)) == "[]";
    } else {
      var inner := EmitItems(items) + "]" + rest;
      assert Emit(Arr(items)) + rest == "[" + inner;
      EmitStarts(items[0]);
      assert inner[0] == Emit(items[0])[0];
      ParseEmitItems(items, rest);
      ParseArray(inner, items, rest);
    }
  }

  lemma {:induction false} ParseEmitObject(ms: seq<Member>, rest: string)
    ensures ParseValue(Emit(Obj(ms)) + rest) == Some(Parsed(Obj(ms), rest))
    decreases ms, 1
  {
    ParseEmpty(rest);
    if ms == [] {
      assert Emit(Obj(ms)) == "{}";
    } else {
      var inner := EmitMembers(ms) + "}" + rest;
      assert Emit(Obj(ms)) + rest == "{" + inner;
      assert inner[0] == EmitMember(ms[0])[0] == '"';
      ParseEmitMembers(ms, rest);
      ParseObject(inner, ms, rest);
    }
  }

  lemma OneText(only: string, close: string, rest: string)
    ensures only + close + rest == only + (close + rest)
    ensures |close| == 1 ==> (close + rest)[0] == close[0] && (close + rest)[1..] == rest
  {
  }

  lemma CommaText(first: string, others: string, close: string, rest: string)
    ensures var tail := others + close + rest;
      first + "," + others + close + rest == first + ("," + tail) && ("," + tail)[1..] == tail
  {
  }

  lemma {:induction false} ParseEmitItems(items: seq<Json>, rest: string)
    requires items != []
    ensures ParseItems(EmitItems(items) + "]" + rest) == Some(Parsed(items, rest))
    decreases items, 0
  {
    if |items| == 1 {
      OneText(Emit(items[0]), "]", rest);
      ParseEmit(items[0], "]" + rest);
      assert items == [items[0]];
    } else {
      var tail := EmitItems(items[1..]) + "]" + rest;
      CommaText(Emit(items[0]), EmitItems(items[1..]), "]", rest);
      ParseEmit(items[0], "," + tail);
      ParseEmitItems(items[1..], rest);
      assert [items[0]] + items[1..] == items;
    }
  }

  lemma {:induction false} ParseEmitMember(m: Member, rest: string)
    requires Ends(m.value, rest)
    ensures ParseMember(EmitMember(m) + rest) == Some(Parsed(m, rest))
    decreases m, 0
  {
    var value := Emit(m.value) + rest;
    var body := EscapeAll(m.key) + "\"" + (":" + value);
    PairText(EscapeAll(m.key), Emit(m.value), rest);
    ParseBodyEscaped(m.key, ":" + value);
    ParseEmit(m.value, rest);
    ParsePair(body, m.key, value, m.value, rest);
  }

  lemma PairText(key: string, value: string, rest: string)
    ensures ("\"" + key + "\"") + ":" + value + rest == "\"" + (key + "\"" + (":" + (value + rest)))
  {
  }

  lemma ParsePair(body: string, key: string, text: string, v: Json, rest: string)
    requires ParseBody(body) == Some(Parsed(key, ":" + text)) && ParseValue(text) == Some(Parsed(v, rest))
    ensures ParseMember("\"" + body) == Some(Parsed(Member(key, v), rest))
  {
    assert ("\"" + body)[1..] == body && (":" + text)[1..] == text;
  }

  lemma {:induction false} ParseEmitMembers(ms: seq<Member>, rest: string)
    requires ms != []
    ensures ParseMembers(EmitMembers(ms) + "}" + rest) == Some(Parsed(ms, rest))
    decreases ms, 0
  {
    if |ms| == 1 {
      OneText(EmitMember(ms[0]), "}", rest);
      ParseEmitMember(ms[0], "}" + rest);
      assert ms == [ms[0]];
    } else {
      var tail := EmitMembers(ms[1..]) + "}" + rest;
      CommaText(EmitMember(ms[0]), EmitMembers(ms[1..]), "}", rest);
      ParseEmitMember(ms[0], "," + tail);
      ParseEmitMembers(ms[1..], rest);
      assert [ms[0]] + ms[1..] == ms;
    }
  }

  // ----- the canonical form forgets exactly the order of keys ------------------------

  predicate HasKey(ms: seq<Member>, key: string) {
    exists i | 0 <= i < |ms| :: ms[i].key == key
  }

  lemma {:induction false} GetFinds(ms: seq<Member>, key: string)
    ensures Get(ms, key).Some? <==> HasKey(ms, key)
    ensures Get(ms, key).Some? ==> Member(key, Get(ms, key).value) in ms
  {
    if ms != [] {
      GetFinds(ms[1..], key);
      assert ms == [ms[0]] + ms[1..];
      if HasKey(ms[1..], key) {
        var i :| 0 <= i < |ms[1..]| && ms[1..][i].key == key;
        assert ms[i + 1].key == key;
      }
    }
  }

  lemma {:induction false} GetAt(ms: seq<Member>, i: nat)
    requires DistinctKeys(ms) && i < |ms|
    ensures Get(ms, ms[i].key) == Some(ms[i].value)
  {
    if i > 0 {
      assert ms[1..][i - 1] == ms[i];
      GetAt(ms[1..], i - 1);
    }
  }

  lemma {:induction false} InsertSorts(m: Member, ms: seq<Member>)
    requires KeysAscend(ms) && !HasKey(ms, m.key)
    ensures KeysAscend(Insert(m, ms)) && |Insert(m, ms)| == |ms| + 1
    ensures forall x :: x in Insert(m, ms) <==> x == m || x in ms
  {
    if ms == [] {
    } else if Before(m.key, ms[0].key) {
      forall j | 0 <= j < |ms| ensures Before(m.key, ms[j].key) {
        if j > 0 {
          BeforeIsTransitive(m.key, ms[0].key, ms[j].key);
        }
      }
    } else {
      BeforeIsTotal(m.key, ms[0].key);
      assert forall j | 0 <= j < |ms[1..]| :: ms[1..][j] == ms[j + 1];
      InsertSorts(m, ms[1..]);
      var r := Insert(m, ms);
      forall j | 0 < j < |r| ensures Before(ms[0].key, r[j].key) {
        assert r[j] in Insert(m, ms[1..]);
      }
    }
  }

  lemma {:induction false} InsertGet(m: Member, ms: seq<Member>, key: string)
    requires !HasKey(ms, m.key)
    ensures Get(Insert(m, ms), key) == if key == m.key then Some(m.value) else Get(ms, key)
  {
    if ms == [] || Before(m.key, ms[0].key) {
      assert ([m] + ms)[1..] == ms;
    } else {
      assert forall j | 0 <= j < |ms[1..]| :: ms[1..][j] == ms[j + 1];
      InsertGet(m, ms[1..], key);
    }
  }

  function CanonOption(o: Option<Json>): Option<Json> {
    match o case None => None case Some(v) => Some(Canon(v))
  }

  lemma {:induction false} CanonMembersSorted(ms: seq<Member>)
    requires DistinctKeys(ms)
    ensures KeysAscend(CanonMembers(ms)) && |CanonMembers(ms)| == |ms|
    ensures forall key :: HasKey(CanonMembers(ms), key) <==> HasKey(ms, key)
  {
    if ms != [] {
      var m := Member(ms[0].key, Canon(ms[0].value));
      var tail := CanonMembers(ms[1..]);
      CanonMembersSorted(ms[1..]);
      assert forall j | 0 <= j < |ms[1..]| :: ms[1..][j] == ms[j + 1];
      InsertSorts(m, tail);
      forall key ensures HasKey(Insert(m, tail), key) <==> HasKey(ms, key) {
        InsertGet(m, tail, key);
        GetFinds(Insert(m, tail), key);
        GetFinds(tail, key);
        GetFinds(ms, key);
        GetFinds(ms[1..], key);
      }
    }
  }

  lemma {:induction false} CanonMembersGet(ms: seq<Member>, key: string)
    requires DistinctKeys(ms)
    ensures Get(CanonMembers(ms), key) == CanonOption(Get(ms, key))
  {
    if ms != [] {
      CanonMembersGet(ms[1..], key);
      CanonMembersSorted(ms[1..]);
      assert forall j | 0 <= j < |ms[1..]| :: ms[1..][j] == ms[j + 1];
      InsertGet(Member(ms[0].key, Canon(ms[0].value)), CanonMembers(ms[1..]), key);
    }
  }

  lemma AscendingIsDistinct(ms: seq<Member>)
    requires KeysAscend(ms)
    ensures DistinctKeys(ms)
  {
    forall i, j | 0 <= i < j < |ms| ensures ms[i].key != ms[j].key {
      BeforeIsAsymmetric(ms[i].key, ms[j].key);
    }
  }

  /** The first key of an ascending object is found in another only at or before its place. */
  lemma FirstKeyIsLeast(ms: seq<Member>, ns: seq<Member>)
    requires KeysAscend(ms) && KeysAscend(ns) && ms != []
    requires HasKey(ns, ms[0].key) && HasKey(ms, ns[0].key)
    ensures ms[0].key == ns[0].key
  {
    var i :| 0 <= i < |ns| && ns[i].key == ms[0].key;
    var j :| 0 <= j < |ms| && ms[j].key == ns[0].key;
    if i > 0 && j > 0 {
      BeforeIsAsymmetric(ns[0].key, ns[i].key);
    }
  }

  /** Two ascending objects with the same lookups are the same sequence. */
  lemma {:induction false} AscendingIsUnique(ms: seq<Member>, ns: seq<Member>)
    requires KeysAscend(ms) && KeysAscend(ns)
    requires forall key :: Get(ms, key) == Get(ns, key)
    ensures ms == ns
  {
    if ms == [] || ns == [] {
      if ms != [] { assert Get(ms, ms[0].key) != Get(ns, ms[0].key); }
      if ns != [] { assert Get(ms, ns[0].key) != Get(ns, ns[0].key); }
    } else {
      GetFinds(ns, ms[0].key);
      GetFinds(ms, ns[0].key);
      assert Get(ms, ms[0].key).Some? && Get(ns, ns[0].key).Some?;
      FirstKeyIsLeast(ms, ns);
      assert ms[0] == ns[0];
      AscendingIsDistinct(ms);
      AscendingIsDistinct(ns);
      forall key ensures Get(ms[1..], key) == Get(ns[1..], key) {
        assert Get(ms, key) == Get(ns, key);
        GetFinds(ms[1..], key);
        GetFinds(ns[1..], key);
      }
      AscendingIsUnique(ms[1..], ns[1..]);
      assert ms == [ms[0]] + ms[1..] && ns == [ns[0]] + ns[1..];
    }
  }

  function Keys(ms: seq<Member>): seq<string> {
    seq(|ms|, i requires 0 <= i < |ms| => ms[i].key)
  }

  /** As many distinct keys, all found on the other side: no key is left over there. */
  lemma {:induction false} NoKeyLeftOver(ms: seq<Member>, ns: seq<Member>, key: string)
    requires DistinctKeys(ms) && DistinctKeys(ns) && |ms| == |ns|
    requires forall i | 0 <= i < |ms| :: HasKey(ns, ms[i].key)
    requires HasKey(ns, key)
    ensures HasKey(ms, key)
  {
    var found, all := set k | k in Keys(ms), set k | k in Keys(ns);
    KeysAreListed(ms);
    KeysAreListed(ns);
    DistinctSize(Keys(ms), found);
    DistinctSize(Keys(ns), all);
    SubsetSize(found, all);
    assert key in found;
  }

  lemma KeysAreListed(ms: seq<Member>)
    ensures forall key :: key in Keys(ms) <==> HasKey(ms, key)
  {
    forall key | HasKey(ms, key) ensures key in Keys(ms) {
      var i :| 0 <= i < |ms| && ms[i].key == key;
      assert Keys(ms)[i] == key;
    }
  }

  lemma HasEqualIsGet(v: Json, key: string, ms: seq<Member>)
    requires DistinctKeys(ms)
    ensures HasEqual(v, key, ms, false) <==> Get(ms, key).Some? && Equal(v, Get(ms, key).value)
  {
    GetFinds(ms, key);
    if HasEqual(v, key, ms, false) {
      var j :| 0 <= j < |ms| && ms[j].key == key && Same(v, ms[j].value, false);
      GetAt(ms, j);
    }
  }

  /** Two values have the same canonical form exactly when they are equal up to key order. */
  lemma {:induction false} CanonForgetsOrder(v: Json, w: Json)
    requires Valid(v) && Valid(w)
    ensures Canon(v) == Canon(w) <==> Equal(v, w)
    decreases v
  {
    match (v, w)
    case (Arr(xs), Arr(ys)) => CanonItemsForgetOrder(xs, ys);
    case (Obj(ms), Obj(ns)) =>
      forall i, x: Json | 0 <= i < |ms| && Valid(x)
        ensures Canon(ms[i].value) == Canon(x) <==> Equal(ms[i].value, x)
      {
        CanonForgetsOrder(ms[i].value, x);
      }
      if Equal(v, w) {
        EqualObjectsCanon(ms, ns);
      } else if Canon(v) == Canon(w) {
        CanonObjectsEqual(ms, ns);
      }
    case _ =>
  }

  lemma {:induction false} CanonItemsForgetOrder(xs: seq<Json>, ys: seq<Json>)
    requires Valid(Arr(xs)) && Valid(Arr(ys))
    ensures CanonItems(xs) == CanonItems(ys) <==> Equal(Arr(xs), Arr(ys))
    decreases xs
  {
    CanonItemsAt(xs);
    CanonItemsAt(ys);
    forall i | 0 <= i < |xs| && i < |ys|
      ensures Canon(xs[i]) == Canon(ys[i]) <==> Equal(xs[i], ys[i])
    {
      CanonForgetsOrder(xs[i], ys[i]);
    }
    if CanonItems(xs) == CanonItems(ys) {
      forall i | 0 <= i < |xs| ensures Same(xs[i], ys[i], false) {
        assert CanonItems(xs)[i] == CanonItems(ys)[i];
      }
    }
  }

  lemma {:induction false} CanonItemsAt(xs: seq<Json>)
    ensures |CanonItems(xs)| == |xs|
    ensures forall i | 0 <= i < |xs| :: CanonItems(xs)[i] == Canon(xs[i])
  {
    if xs != [] {
      CanonItemsAt(xs[1..]);
    }
  }

  ghost predicate CanonDecides(ms: seq<Member>) {
    forall i, x: Json | 0 <= i < |ms| && Valid(x) ::
      Canon(ms[i].value) == Canon(x) <==> Equal(ms[i].value, x)
  }

  lemma EqualObjectsCanon(ms: seq<Member>, ns: seq<Member>)
    requires Valid(Obj(ms)) && Valid(Obj(ns)) && CanonDecides(ms)
    requires Equal(Obj(ms), Obj(ns))
    ensures CanonMembers(ms) == CanonMembers(ns)
  {
    forall i | 0 <= i < |ms| ensures HasKey(ns, ms[i].key) {
      assert HasEqual(ms[i].value, ms[i].key, ns, false);
    }
    forall key ensures Get(CanonMembers(ms), key) == Get(CanonMembers(ns), key) {
      CanonMembersGet(ms, key);
      CanonMembersGet(ns, key);
      GetFinds(ms, key);
      GetFinds(ns, key);
      if HasKey(ms, key) {
        var i :| 0 <= i < |ms| && ms[i].key == key;
        GetAt(ms, i);
        assert HasEqual(ms[i].value, key, ns, false);
        HasEqualIsGet(ms[i].value, key, ns);
      } else if HasKey(ns, key) {
        NoKeyLeftOver(ms, ns, key);
      }
    }
    CanonMembersSorted(ms);
    CanonMembersSorted(ns);
    AscendingIsUnique(CanonMembers(ms), CanonMembers(ns));
  }

  lemma CanonObjectsEqual(ms: seq<Member>, ns: seq<Member>)
    requires Valid(Obj(ms)) && Valid(Obj(ns)) && CanonDecides(ms)
    requires CanonMembers(ms) == CanonMembers(ns)
    ensures Equal(Obj(ms), Obj(ns))
  {
    CanonMembersSorted(ms);
    CanonMembersSorted(ns);
    forall i | 0 <= i < |ms| ensures HasEqual(ms[i].value, ms[i].key, ns, false) {
      GetAt(ms, i);
      CanonMembersGet(ms, ms[i].key);
      CanonMembersGet(ns, ms[i].key);
      GetFinds(ns, ms[i].key);
      HasEqualIsGet(ms[i].value, ms[i].key, ns);
    }
  }

  // ----- main results ----------------------------------------------------------------

  /** Keys ascend by code point in every object. */
  predicate SortedKeys(v: Json)
    decreases v
  {
    match v
    case Arr(items) => forall i | 0 <= i < |items| :: SortedKeys(items[i])
    case Obj(ms) => KeysAscend(ms) && forall i | 0 <= i < |ms| :: SortedKeys(ms[i].value)
    case _ => true
  }

  /**
   Decoding the canonical text gives back the value with sorted keys: equal to
   the original up to key order, and with the unread remainder intact.
   */
  lemma DecodeCanonText(v: Json, rest: string)
    requires Valid(v) && Ends(v, rest)
    ensures exists w ::
      ParseValue(CanonText(v) + rest) == Some(Parsed(w, rest)) && Equal(v, w) && SortedKeys(w) && Valid(w)
  {
    var w := Canon(v);
    ParseEmit(w, rest);
    CanonIsSorted(v);
    CanonTwice(v);
    CanonForgetsOrder(v, w);
  }

  lemma {:induction false} CanonIsSorted(v: Json)
    requires Valid(v)
    ensures SortedKeys(Canon(v)) && Valid(Canon(v))
    decreases v
  {
    match v
    case Arr(items) =>
      CanonItemsAt(items);
      forall i | 0 <= i < |items| ensures SortedKeys(CanonItems(items)[i]) && Valid(CanonItems(items)[i]) {
        CanonIsSorted(items[i]);
      }
    case Obj(ms) =>
      CanonMembersSorted(ms);
      var cs := CanonMembers(ms);
      AscendingIsDistinct(cs);
      forall i | 0 <= i < |cs| ensures SortedKeys(cs[i].value) && Valid(cs[i].value) {
        var j := CanonMemberFrom(ms, cs[i].key, i);
        CanonIsSorted(ms[j].value);
      }
    case _ =>
  }

  lemma CanonMemberFrom(ms: seq<Member>, key: string, i: nat) returns (j: nat)
    requires DistinctKeys(ms) && i < |CanonMembers(ms)| && CanonMembers(ms)[i].key == key
    ensures j < |ms| && ms[j].key == key && CanonMembers(ms)[i].value == Canon(ms[j].value)
  {
    CanonMembersSorted(ms);
    AscendingIsDistinct(CanonMembers(ms));
    GetAt(CanonMembers(ms), i);
    CanonMembersGet(ms, key);
    GetFinds(ms, key);
    j :| 0 <= j < |ms| && ms[j] == Member(key, Get(ms, key).value);
  }

  /** Canonicalising is idempotent. */
  lemma {:induction false} CanonTwice(v: Json)
    requires Valid(v)
    ensures Canon(Canon(v)) == Canon(v)
    decreases v
  {
    match v
    case Arr(items) =>
      var cs := CanonItems(items);
      CanonItemsAt(items);
      CanonItemsAt(cs);
      forall i | 0 <= i < |items| ensures CanonItems(cs)[i] == cs[i] {
        CanonTwice(items[i]);
      }
    case Obj(ms) =>
      var cs := CanonMembers(ms);
      CanonMembersSorted(ms);
      AscendingIsDistinct(cs);
      CanonMembersSorted(cs);
      forall key ensures Get(CanonMembers(cs), key) == Get(cs, key) {
        CanonMembersGet(cs, key);
        CanonMembersGet(ms, key);
        GetFinds(ms, key);
        if HasKey(ms, key) {
          var i :| 0 <= i < |ms| && ms[i] == Member(key, Get(ms, key).value);
          CanonTwice(ms[i].value);
        }
      }
      AscendingIsUnique(CanonMembers(cs), cs);
    case _ =>
  }

  /** Two values print to the same canonical text exactly when they are equal up to key order. */
  lemma CanonTextDecides(v: Json, w: Json)
    requires Valid(v) && Valid(w)
    ensures CanonText(v) == CanonText(w) <==> Equal(v, w)
  {
    CanonForgetsOrder(v, w);
    if CanonText(v) == CanonText(w) {
      ParseEmit(Canon(v), "");
      ParseEmit(Canon(w), "");
    }
  }

  /** The same for the bytes that are hashed. */
  lemma CanonBytesDecide(v: Json, w: Json)
    requires Valid(v) && Valid(w)
    ensures CanonBytes(v) == CanonBytes(w) <==> Equal(v, w)
  {
    CanonTextDecides(v, w);
    if CanonBytes(v) == CanonBytes(w) {
      Utf8.DecodeEncode(CanonText(v));
      Utf8.DecodeEncode(CanonText(w));
    }
  }

  // ----- in literals ---------------------------------------------------------------

  /** No other text that reads as the character is as short as the printed one. */
  lemma EscapeIsShortest(c: char, t: string)
    requires ParseChar(t) == Some(Parsed(c, ""))
    ensures |Escape(c)| < |t| || t == Escape(c)
  {
    if |t| == 1 {
      assert t == [c];
    } else if |t| == 2 {
      assert t == [t[0], t[1]];
    } else if |t| == 6 {
      assert t == [t[0], t[1], t[2], t[3], t[4], t[5]];
    }
  }

  /** The seven short escapes, a numbered one, and what a text may and may not hold as it is. */
  lemma ReaderTable()
    ensures ParseChar("\\\"") == Some(Parsed('"', "")) && ParseChar("\\\\") == Some(Parsed('\\', ""))
    ensures ParseChar("\\n") == Some(Parsed(10 as char, "")) && ParseChar("\\r") == Some(Parsed(13 as char, ""))
    ensures ParseChar("\\t") == Some(Parsed(9 as char, "")) && ParseChar("\\b") == Some(Parsed(8 as char, ""))
    ensures ParseChar("\\f") == Some(Parsed(12 as char, ""))
    ensures ParseChar("\\u001f") == Some(Parsed(31 as char, "")) && ParseChar("\\u001F").None?
    ensures forall c: char ::
      ParseChar([c]) == if c as int < 32 || c == '"' || c == '\\' then None else Some(Parsed(c, ""))
  {
  }

  lemma EscapeTable()
    ensures Escape('"') == "\\\"" && Escape('\\') == "\\\\"
    ensures Escape(10 as char) == "\\n" && Escape(13 as char) == "\\r"
    ensures Escape(9 as char) == "\\t" && Escape(8 as char) == "\\b" && Escape(12 as char) == "\\f"
    ensures Escape(0 as char) == "\\u0000" && Escape(31 as char) == "\\u001f"
    ensures forall c: char | c as int >= 32 && c != '"' && c != '\\' :: Escape(c) == [c]
  {
  }

  /** The first test vector of the repository. */
  lemma VectorA()
    ensures CanonText(Obj([Member("b", Int(2)), Member("a", Int(1))])) == "{\"a\":1,\"b\":2}"
  {
    VectorASorted();
    VectorAText();
  }

  lemma VectorASorted()
    ensures Canon(Obj([Member("b", Int(2)), Member("a", Int(1))])) == Obj([Member("a", Int(1)), Member("b", Int(2))])
  {
    var a, b := Member("a", Int(1)), Member("b", Int(2));
    assert CanonMembers([a]) == [a];
    assert Insert(b, [a]) == [a, b];
  }

  lemma VectorAText()
    ensures Emit(Obj([Member("a", Int(1)), Member("b", Int(2))])) == "{\"a\":1,\"b\":2}"
  {
    var a, b := Member("a", Int(1)), Member("b", Int(2));
    MemberText("a", 1);
    MemberText("b", 2);
    assert EmitMembers([a, b]) == EmitMember(a) + "," + EmitMembers([b]);
  }

  lemma MemberText(key: string, n: nat)
    requires |key| == 1 && Escape(key[0]) == key
    ensures EmitMember(Member(key, Int(n))) == "\"" + key + "\":" + Digits(n)
  {
    assert EscapeAll(key) == key;
  }

  /** The escapes of its third one. */
  lemma VectorC()
    ensures Quote("1\n2\"\\") == "\"1\\n2\\\"\\\\\""
  {
    assert EscapeAll("\\") == "\\\\" + EscapeAll("");
    assert EscapeAll("\"\\") == "\\\"" + EscapeAll("\\");
    assert EscapeAll("2\"\\") == "2" + EscapeAll("\"\\");
    assert EscapeAll("\n2\"\\") == "\\n" + EscapeAll("2\"\\");
    assert EscapeAll("1\n2\"\\") == "1" + EscapeAll("\n2\"\\");
  }

  lemma TextTable()
    ensures CanonText(Null) == "null" && CanonText(Bool(true)) == "true" && CanonText(Bool(false)) == "false"
    ensures CanonText(Int(0)) == "0" && CanonText(Int(-1203)) == "-1203" && CanonText(Int(456789)) == "456789"
    ensures CanonText(Arr([])) == "[]" && CanonText(Obj([])) == "{}"
  {
    assert Digits(1203) == "1203" && Digits(456789) == "456789";
  }

  lemma TextOfPair(x: Json, y: Json)
    ensures CanonText(Arr([x, y])) == "[" + (CanonText(x) + "," + CanonText(y)) + "]"
  {
    var items, canon := [x, y], [Canon(x), Canon(y)];
    assert items[1..] == [y] && [y][1..] == [];
    assert CanonItems([y]) == [Canon(y)];
    assert CanonItems(items) == [Canon(x)] + [Canon(y)] == canon;
    assert canon[1..] == [Canon(y)];
    assert EmitItems(canon) == Emit(canon[0]) + "," + EmitItems(canon[1..]);
  }

  /** An object of two members that come in the wrong order. */
  lemma TextOfTwo(k: string, v: Json, l: string, w: Json)
    requires Before(l, k)
    ensures CanonText(Obj([Member(k, v), Member(l, w)]))
      == "{" + (Quote(l) + ":" + CanonText(w) + "," + (Quote(k) + ":" + CanonText(v))) + "}"
  {
    TwoSorted(Member(k, v), Member(l, w));
    TwoEmitted(Member(l, Canon(w)), Member(k, Canon(v)));
  }

  lemma TwoSorted(m: Member, n: Member)
    requires Before(n.key, m.key)
    ensures CanonMembers([m, n]) == [Member(n.key, Canon(n.value)), Member(m.key, Canon(m.value))]
  {
    var a, b := Member(n.key, Canon(n.value)), Member(m.key, Canon(m.value));
    BeforeIsAsymmetric(n.key, m.key);
    assert [m, n][1..] == [n] && [n][1..] == [];
    assert CanonMembers([n]) == Insert(a, []) == [a];
    assert [a][1..] == [] && Insert(b, []) == [b];
    assert Insert(b, [a]) == [a] + [b];
  }

  lemma TwoEmitted(m: Member, n: Member)
    ensures EmitMembers([m, n]) == EmitMember(m) + "," + EmitMember(n)
  {
    assert [m, n][1..] == [n];
  }

  lemma LetterText(key: string)
    requires |key| == 1 && 'a' <= key[0] <= 'z'
    ensures Quote(key) == "\"" + key + "\""
  {
    assert EscapeAll(key) == key;
  }

  const VECTOR_B_FLAGS := Obj([Member("b", Bool(true)), Member("a", Bool(false))])
  const VECTOR_B_LIST := Arr([VECTOR_B_POINT, Int(3)])

  /** The second test vector. */
  lemma VectorB()
    ensures CanonText(Obj([Member("z", VECTOR_B_FLAGS), Member("a", VECTOR_B_LIST)]))
      == "{\"a\":[{\"x\":1,\"y\":2},3]," + "\"z\":{\"a\":false,\"b\":true}}"
  {
    VectorBFlags();
    VectorBList();
    LetterText("a");
    LetterText("z");
    TextOfTwo("z", VECTOR_B_FLAGS, "a", VECTOR_B_LIST);
    VectorBText(Quote("a"), CanonText(VECTOR_B_LIST), Quote("z"), CanonText(VECTOR_B_FLAGS));
  }

  lemma VectorBText(a: string, list: string, z: string, flags: string)
    requires a == "\"a\"" && list == "[{\"x\":1,\"y\":2},3]" && z == "\"z\"" && flags == "{\"a\":false,\"b\":true}"
    ensures "{" + (a + ":" + list + "," + (z + ":" + flags)) + "}"
      == "{\"a\":[{\"x\":1,\"y\":2},3]," + "\"z\":{\"a\":false,\"b\":true}}"
  {
    assert "{" + (a + ":" + list + ",") == "{\"a\":[{\"x\":1,\"y\":2},3],";
    assert z + ":" + flags + "}" == "\"z\":{\"a\":false,\"b\":true}}";
  }

  lemma VectorBFlags()
    ensures CanonText(VECTOR_B_FLAGS) == "{\"a\":false,\"b\":true}"
  {
    LetterText("a");
    LetterText("b");
    TextOfTwo("b", Bool(true), "a", Bool(false));
  }

  const VECTOR_B_POINT := Obj([Member("y", Int(2)), Member("x", Int(1))])

  lemma VectorBPoint()
    ensures CanonText(VECTOR_B_POINT) == "{\"x\":1,\"y\":2}"
  {
    LetterText("x");
    LetterText("y");
    TextOfTwo("y", Int(2), "x", Int(1));
  }

  lemma VectorBList()
    ensures CanonText(VECTOR_B_LIST) == "[{\"x\":1,\"y\":2},3]"
  {
    VectorBPoint();
    TextOfPair(VECTOR_B_POINT, Int(3));
  }
}
