/** Decoded JSON values as Python holds them, and the text
    `json.dumps(value, ensure_ascii=False, sort_keys=True)` writes for them.
    The TF-IDF cache (utils/tfidf/vectorizer.py) hashes that text, so what
    matters here is that the text depends on the data and not on the order
    in which a record's keys happen to be stored. */
module Json {
  import opened Base
  import opened Text
  import opened Ordering
  import Num = ArticleNumber

  /** The keys of a statute record `{조번호, 제목, 내용}`: article number,
      title and body. */
  const NumberKey: string := "조번호"
  const TitleKey: string := "제목"
  const ContentKey: string := "내용"

  /** A JSON value after `json.loads`. An object keeps its entries in
      insertion order, as a Python `dict` does. Floating-point numbers are
      not modelled. */
  datatype Value =
    | Null
    | Bool(b: bool)
    | Int(i: int)
    | Str(s: string)
    | Array(items: seq<Value>)
    | Object(entries: seq<(string, Value)>)

  /** A Python `dict` never holds the same key twice. */
  predicate DistinctKeys(es: seq<(string, Value)>) {
    forall i, j :: 0 <= i < j < |es| ==> es[i].0 != es[j].0
  }

  /** `d.get(key)`: `key in d` is `Get(...).Some?`, `d[key]` its value. */
  function Get(es: seq<(string, Value)>, key: string): (r: Option<Value>)
    ensures r.Some? <==> exists i :: 0 <= i < |es| && es[i].0 == key
    ensures r.Some? ==> (key, r.value) in es
  {
    if |es| == 0 then None
    else if es[0].0 == key then Some(es[0].1)
    else
      var r := Get(es[1..], key);
      assert forall i :: 0 < i < |es| ==> es[i] == es[1..][i - 1];
      r
  }

  /** In a dict, an entry is what looking its key up finds. */
  lemma GetEntry(es: seq<(string, Value)>, key: string, v: Value)
    requires DistinctKeys(es)
    requires (key, v) in es
    ensures Get(es, key) == Some(v)
  {
    var r := Get(es, key);
    assert r.Some?;
    SameKeySameEntry(es, (key, v), (key, r.value));
  }

  lemma SameKeySameEntry(es: seq<(string, Value)>, x: (string, Value), y: (string, Value))
    requires DistinctKeys(es)
    requires x in es && y in es && x.0 == y.0
    ensures x == y
  {
    var i :| 0 <= i < |es| && es[i] == x;
    var j :| 0 <= j < |es| && es[j] == y;
    assert i == j;
  }

  /** Two dicts holding the same entries answer every lookup alike,
      whatever order the entries were inserted in. */
  lemma GetIgnoresOrder(a: seq<(string, Value)>, b: seq<(string, Value)>, key: string)
    requires DistinctKeys(a) && DistinctKeys(b)
    requires multiset(a) == multiset(b)
    ensures Get(a, key) == Get(b, key)
  {
    var ra := Get(a, key);
    if ra.Some? {
      assert (key, ra.value) in multiset(b);
      GetEntry(b, key, ra.value);
    } else if Get(b, key).Some? {
      SharedEntry(b, a, (key, Get(b, key).value));
      assert false;
    }
  }

  lemma SharedEntry(a: seq<(string, Value)>, b: seq<(string, Value)>, x: (string, Value))
    requires multiset(a) == multiset(b)
    requires x in a
    ensures x in b && exists i :: 0 <= i < |b| && b[i].0 == x.0
  {
    assert x in multiset(b);
    var i :| 0 <= i < |b| && b[i] == x;
  }

  // ---------------------------------------------------------------------------
  // Numbers: `str(n)` / `repr(n)` of an int
  // ---------------------------------------------------------------------------

  function DigitChar(d: nat): (c: char)
    requires d < 10
    ensures IsDigit(c) && Num.DigitValue(c) == d
  {
    ('0' as int + d) as char
  }

  /** The decimal digits of `n`. */
  function NatText(n: nat): (t: string)
    ensures |t| > 0 && AllDigits(t)
  {
    if n < 10 then [DigitChar(n)] else NatText(n / 10) + [DigitChar(n % 10)]
  }

  /** How Python writes an int, in JSON text and in `str()` alike. */
  function IntText(i: int): string {
    if i < 0 then "-" + NatText(-i) else NatText(i)
  }

  lemma {:induction false} ValueAppend(p: string, c: char)
    requires AllDigits(p) && IsDigit(c)
    ensures Num.Value(p + [c]) == 10 * Num.Value(p) + Num.DigitValue(c)
  {
    if |p| > 0 {
      var s := p + [c];
      assert s[1..] == p[1..] + [c];
      ValueAppend(p[1..], c);
      var d, q := Num.DigitValue(p[0]), Num.Pow10(|p| - 1);
      assert Num.Pow10(|s| - 1) == 10 * q;
      assert Num.Value(s) == d * (10 * q) + Num.Value(s[1..]);
      assert Num.Value(p) == d * q + Num.Value(p[1..]);
      assert d * (10 * q) == 10 * (d * q);
    }
  }

  /** The digits `NatText` writes read back as `n`, without leading zeros. */
  lemma {:induction false} NatTextValue(n: nat)
    ensures Num.Value(NatText(n)) == n
    ensures Num.IsCanonical(NatText(n))
  {
    if n >= 10 {
      NatTextValue(n / 10);
      ValueAppend(NatText(n / 10), DigitChar(n % 10));
    }
  }

  // ---------------------------------------------------------------------------
  // Strings: Python's `encode_basestring` (ensure_ascii=False)
  // ---------------------------------------------------------------------------

  function HexDigit(d: nat): char
    requires d < 16
  {
    if d < 10 then ('0' as int + d) as char else ('a' as int + d - 10) as char
  }

  predicate IsHexDigit(c: char) {
    ('0' <= c <= '9') || ('a' <= c <= 'f')
  }

  function HexValue(c: char): (d: nat)
    requires IsHexDigit(c)
    ensures d < 16
  {
    if c <= '9' then c as int - '0' as int else c as int - 'a' as int + 10
  }

  /** The two-letter escapes: `\"`, `\\`, `\n`, `\r`, `\t`, `\b`, `\f`. */
  function ShortEscape(c: char): Option<char> {
    if c == '"' then Some('"')
    else if c == '\\' then Some('\\')
    else if c == '\n' then Some('n')
    else if c == '\r' then Some('r')
    else if c == '\t' then Some('t')
    else if c == '\U{8}' then Some('b')
    else if c == '\U{C}' then Some('f')
    else None
  }

  /** The letter after a backslash, read back. */
  function ShortUnescape(e: char): Option<char> {
    if e == '"' then Some('"')
    else if e == '\\' then Some('\\')
    else if e == 'n' then Some('\n')
    else if e == 'r' then Some('\r')
    else if e == 't' then Some('\t')
    else if e == 'b' then Some('\U{8}')
    else if e == 'f' then Some('\U{C}')
    else None
  }

  /** One character of a JSON string literal: the short escapes, `\u00xx`
      for the other control characters, every other character as itself. */
  function EscapeChar(c: char): string {
    match ShortEscape(c)
    case Some(e) => ['\\', e]
    case None =>
      if c < ' ' then ['\\', 'u', '0', '0', HexDigit(c as int / 16), HexDigit(c as int % 16)]
      else [c]
  }

  function Escape(s: string): string {
    if |s| == 0 then "" else EscapeChar(s[0]) + Escape(s[1..])
  }

  /** A string literal. */
  function Quote(s: string): string {
    "\"" + Escape(s) + "\""
  }

  function Prepend(c: char, r: Option<string>): Option<string> {
    match r
    case None => None
    case Some(t) => Some([c] + t)
  }

  /** Reads the body of a string literal back, for the escapes `Escape`
      writes; None on any other backslash sequence. */
  function Unescape(t: string): (r: Option<string>)
    decreases |t|
  {
    if |t| == 0 then Some("")
    else if t[0] != '\\' then Prepend(t[0], Unescape(t[1..]))
    else if |t| < 2 then None
    else if t[1] == 'u' then
      if |t| >= 6 && t[2] == '0' && t[3] == '0' && IsHexDigit(t[4]) && IsHexDigit(t[5])
      then Prepend((16 * HexValue(t[4]) + HexValue(t[5])) as char, Unescape(t[6..]))
      else None
    else match ShortUnescape(t[1])
      case None => None
      case Some(c) => Prepend(c, Unescape(t[2..]))
  }

  lemma UnescapeChar(c: char, t: string)
    ensures Unescape(EscapeChar(c) + t) == Prepend(c, Unescape(t))
  {
    var u := EscapeChar(c) + t;
    match ShortEscape(c)
    case Some(e) =>
      assert u[0] == '\\' && u[1] == e && u[2..] == t;
    case None =>
      if c < ' ' {
        var n := c as int;
        var hi, lo := HexDigit(n / 16), HexDigit(n % 16);
        assert HexValue(hi) == n / 16 && HexValue(lo) == n % 16;
        assert u[..6] == ['\\', 'u', '0', '0', hi, lo] && u[6..] == t;
      } else {
        assert u[0] == c && u[1..] == t;
      }
  }

  /** A string literal's body reads back as the string it was written from. */
  lemma {:induction false} UnescapeEscape(s: string)
    ensures Unescape(Escape(s)) == Some(s)
  {
    if |s| > 0 {
      UnescapeEscape(s[1..]);
      UnescapeChar(s[0], Escape(s[1..]));
      assert [s[0]] + s[1..] == s;
    }
  }

  // ---------------------------------------------------------------------------
  // `json.dumps(value, ensure_ascii=False, sort_keys=True)`
  // ---------------------------------------------------------------------------

  function KeyOf(e: (string, Value)): string {
    e.0
  }

  /** Default separators `", "` and `": "`; an object's entries in key order. */
  function Dumps(v: Value): string
    decreases v
  {
    match v
    case Null => "null"
    case Bool(b) => if b then "true" else "false"
    case Int(i) => IntText(i)
    case Str(s) => Quote(s)
    case Array(items) =>
      "[" + Join(seq(|items|, k requires 0 <= k < |items| => Dumps(items[k])), ", ") + "]"
    case Object(es) =>
      var sorted := SortBy(es, KeyOf);
      assert forall k :: 0 <= k < |sorted| ==> sorted[k] in multiset(es);
      "{" + Join(seq(|sorted|, k requires 0 <= k < |sorted| => Quote(sorted[k].0) + ": " + Dumps(sorted[k].1)), ", ") + "}"
  }

  /** `v` and `w` are the same value, except that two objects may hold the
      same entries inserted in different orders. */
  predicate SameUpToKeyOrder(v: Value, w: Value) {
    || v == w
    || (&& v.Object? && w.Object?
        && DistinctKeys(v.entries) && DistinctKeys(w.entries)
        && multiset(v.entries) == multiset(w.entries))
  }

  predicate SameItemsUpToKeyOrder(a: seq<Value>, b: seq<Value>) {
    |a| == |b| && forall k :: 0 <= k < |a| ==> SameUpToKeyOrder(a[k], b[k])
  }

  /** `sort_keys=True`: the text of a dict does not depend on the order its
      keys were inserted in. */
  lemma DumpsIgnoresKeyOrder(v: Value, w: Value)
    requires SameUpToKeyOrder(v, w)
    ensures Dumps(v) == Dumps(w)
  {
    if v != w {
      var a, b := v.entries, w.entries;
      forall x, y | x in SortBy(a, KeyOf) && y in SortBy(a, KeyOf) && KeyOf(x) == KeyOf(y)
        ensures x == y
      {
        assert x in multiset(a) && y in multiset(a);
        SameKeySameEntry(a, x, y);
      }
      SortedUnique(SortBy(a, KeyOf), SortBy(b, KeyOf), KeyOf);
    }
  }

  /** The text of a list of records does not depend on the key order inside
      any of them. */
  lemma DumpsItemsIgnoresKeyOrder(a: seq<Value>, b: seq<Value>)
    requires SameItemsUpToKeyOrder(a, b)
    ensures Dumps(Array(a)) == Dumps(Array(b))
  {
    forall k | 0 <= k < |a| ensures Dumps(a[k]) == Dumps(b[k]) {
      DumpsIgnoresKeyOrder(a[k], b[k]);
    }
    assert seq(|a|, k requires 0 <= k < |a| => Dumps(a[k])) == seq(|b|, k requires 0 <= k < |b| => Dumps(b[k]));
  }

  // ---------------------------------------------------------------------------
  // `str(value)` of a field value, as an f-string writes it
  // ---------------------------------------------------------------------------

  /** Like Python's `str()` on a scalar: a string as itself, an int in
      decimal, `True`, `False`, `None`. Unlike `str()`, a list or dict is
      written as its JSON text rather than as its Python `repr`. */
  function Show(v: Value): string {
    match v
    case Str(s) => s
    case Int(i) => IntText(i)
    case Bool(b) => if b then "True" else "False"
    case Null => "None"
    case _ => Dumps(v)
  }

  /** Python truthiness: empty strings, lists and dicts, zero, False and
      None are false. */
  predicate Truthy(v: Value) {
    match v
    case Null => false
    case Bool(b) => b
    case Int(i) => i != 0
    case Str(s) => |s| > 0
    case Array(items) => |items| > 0
    case Object(es) => |es| > 0
  }
}
