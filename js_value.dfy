/**
 * The JavaScript values that xml2js produces and that the traversal walks:
 * strings, arrays and plain objects, plus `undefined` and the numbers that
 * only appear as the `length` of an array or a string.
 */
module JsValue {
  import opened Wrappers

  datatype Node =
    | Undefined                      // `undefined` or `null`
    | Str(s: string)
    | Num(n: nat)
    | Arr(items: seq<Node>)
    | Obj(props: map<string, Node>)

  /** JavaScript truthiness: `undefined`, `''` and `0` are falsy. */
  predicate Truthy(v: Node) {
    match v
    case Undefined => false
    case Str(s) => s != ""
    case Num(n) => n != 0
    case Arr(_) => true
    case Obj(_) => true
  }

  /** `v || fallback` */
  function Or(v: Node, fallback: Node): Node {
    if Truthy(v) then v else fallback
  }

  /** Values on which the `in` operator throws a TypeError. */
  predicate IsPrimitive(v: Node) {
    v.Undefined? || v.Str? || v.Num?
  }

  /** `items[0]`: the first element, or `undefined` for an empty array. */
  function First(items: seq<Node>): Node {
    if |items| == 0 then Undefined else items[0]
  }

  predicate IsDigit(c: char) {
    '0' <= c <= '9'
  }

  predicate IsDigits(s: string) {
    forall k :: 0 <= k < |s| ==> IsDigit(s[k])
  }

  function DigitValue(c: char): nat
    requires IsDigit(c)
  {
    (c as int - '0' as int) as nat
  }

  function DigitChar(d: nat): (c: char)
    requires d < 10
    ensures IsDigit(c) && DigitValue(c) == d
  {
    ('0' as int + d) as char
  }

  /** The value of a string of decimal digits, as `parseInt(s, 10)` reads it. */
  function DecimalValue(s: string): nat
    requires IsDigits(s)
  {
    if s == [] then 0 else 10 * DecimalValue(s[..|s| - 1]) + DigitValue(s[|s| - 1])
  }

  /** The decimal text of a natural number, as `String(n)` writes it. */
  function NatToString(n: nat): (r: string)
    ensures |r| > 0 && IsDigits(r)
    ensures r[0] != '0' || n == 0
    ensures n == 0 <==> r == "0"
  {
    if n < 10 then [DigitChar(n)] else NatToString(n / 10) + [DigitChar(n % 10)]
  }

  /** Reading back the decimal text of `n` gives `n`. */
  lemma {:induction false} DecimalRoundTrip(n: nat)
    ensures DecimalValue(NatToString(n)) == n
  {
    var r := NatToString(n);
    if n >= 10 {
      DecimalRoundTrip(n / 10);
      assert r[..|r| - 1] == NatToString(n / 10);
    }
  }

  /**
   * The array index a property key denotes: a canonical decimal numeral
   * (no sign, no leading zero except in "0").
   */
  function ArrayIndex(key: string): (r: Option<nat>)
    ensures r.Some? ==> NatToString(r.value) == key
  {
    if |key| > 0 && IsDigits(key) && (key[0] != '0' || |key| == 1) then
      CanonicalDecimal(key);
      Some(DecimalValue(key))
    else
      None
  }

  /** A canonical numeral is the decimal text of its own value. */
  lemma {:induction false} CanonicalDecimal(key: string)
    requires |key| > 0 && IsDigits(key) && (key[0] != '0' || |key| == 1)
    ensures NatToString(DecimalValue(key)) == key
  {
    var n := DecimalValue(key);
    var init := key[..|key| - 1];
    if |key| == 1 {
      assert init == [];
    } else {
      assert init[0] == key[0];
      CanonicalDecimal(init);
      var m := DecimalValue(init);
      assert m > 0;
      assert n == 10 * m + DigitValue(key[|key| - 1]);
      assert n / 10 == m && n % 10 == DigitValue(key[|key| - 1]);
      assert [DigitChar(n % 10)] == [key[|key| - 1]];
      assert key == init + [key[|key| - 1]];
    }
  }

  /** Every property key `String(n)` is read back as the array index `n`. */
  lemma ArrayIndexOfDecimal(n: nat)
    ensures ArrayIndex(NatToString(n)) == Some(n)
  {
    DecimalRoundTrip(n);
  }

  /**
   * The own property `key` of a non-null value: the entries of an object,
   * the elements and `length` of an array or string. Numbers own nothing.
   */
  function OwnProperty(v: Node, key: string): Option<Node> {
    match v
    case Obj(m) => if key in m then Some(m[key]) else None
    case Arr(items) =>
      if key == "length" then Some(Num(|items|))
      else if ArrayIndex(key).Some? && ArrayIndex(key).value < |items| then Some(items[ArrayIndex(key).value])
      else None
    case Str(s) =>
      if key == "length" then Some(Num(|s|))
      else if ArrayIndex(key).Some? && ArrayIndex(key).value < |s| then Some(Str([s[ArrayIndex(key).value]]))
      else None
    case _ => None
  }

  /** `v[key]` on a value that is not `undefined`: the property or `undefined`. */
  function Get(v: Node, key: string): Node {
    match OwnProperty(v, key)
    case Some(c) => c
    case None => Undefined
  }

  /** `String(v)` as `Array.prototype.join` applies it to one element. */
  function ElementString(v: Node): string {
    match v
    case Undefined => ""
    case Str(s) => s
    case Num(n) => NatToString(n)
    case Arr(items) => JoinStrings(seq(|items|, k requires 0 <= k < |items| => ElementString(items[k])), ",")
    case Obj(_) => "[object Object]"
  }

  /** `parts.join(sep)` on parts that are strings already. */
  function JoinStrings(parts: seq<string>, sep: string): string {
    if |parts| == 0 then ""
    else if |parts| == 1 then parts[0]
    else JoinStrings(parts[..|parts| - 1], sep) + sep + parts[|parts| - 1]
  }

  /** `items.join(sep)` */
  function Join(items: seq<Node>, sep: string): string {
    JoinStrings(seq(|items|, k requires 0 <= k < |items| => ElementString(items[k])), sep)
  }

  /** `s.split(sep)` for one separator character; it always gives at least one part. */
  function Split(s: string, sep: char): (parts: seq<string>)
    ensures |parts| >= 1
  {
    if s == [] then [""]
    else
      var front := Split(s[..|s| - 1], sep);
      var m := |front|;
      if s[|s| - 1] == sep then front + [""]
      else front[..m - 1] + [front[m - 1] + [s[|s| - 1]]]
  }

  /** No part of a split holds the separator. */
  lemma {:induction false} SplitNoSeparator(s: string, sep: char)
    ensures forall k :: 0 <= k < |Split(s, sep)| ==> sep !in Split(s, sep)[k]
  {
    if s != [] {
      var init := s[..|s| - 1];
      var front := Split(init, sep);
      var m := |front|;
      SplitNoSeparator(init, sep);
      if s[|s| - 1] != sep {
        var parts := Split(s, sep);
        assert forall k :: 0 <= k < m - 1 ==> parts[k] == front[k];
        assert parts[m - 1] == front[m - 1] + [s[|s| - 1]];
      }
    }
  }

  /** Joining the parts of a split back with the separator gives the string. */
  lemma {:induction false} SplitJoin(s: string, sep: char)
    ensures JoinStrings(Split(s, sep), [sep]) == s
  {
    if s != [] {
      var init := s[..|s| - 1];
      var c := s[|s| - 1];
      var front := Split(init, sep);
      var m := |front|;
      var parts := Split(s, sep);
      SplitJoin(init, sep);
      if c == sep {
        assert parts[..m] == front;
      } else {
        assert parts[..m - 1] == front[..m - 1];
        assert m > 1 ==> JoinStrings(front, [sep]) == JoinStrings(front[..m - 1], [sep]) + [sep] + front[m - 1];
      }
      assert s == init + [c];
    }
  }

  /** The last part of a split is a suffix without the separator, preceded by the separator or by nothing. */
  lemma {:induction false} SplitLast(s: string, sep: char)
    ensures var last := Split(s, sep)[|Split(s, sep)| - 1];
      && |last| <= |s| && last == s[|s| - |last|..] && sep !in last
      && (|last| == |s| || s[|s| - |last| - 1] == sep)
  {
    if s != [] {
      var init := s[..|s| - 1];
      var c := s[|s| - 1];
      var front := Split(init, sep);
      SplitLast(init, sep);
      if c != sep {
        var before := front[|front| - 1];
        var last := before + [c];
        assert Split(s, sep)[|Split(s, sep)| - 1] == last;
        assert s == init + [c];
        assert s[|s| - |last|..] == init[|init| - |before|..] + [c];
        assert |last| < |s| ==> s[|s| - |last| - 1] == init[|init| - |before| - 1];
      }
    }
  }

  /** `_.last(parts)` for a non-empty array. */
  function Last(parts: seq<string>): string
    requires |parts| > 0
  {
    parts[|parts| - 1]
  }

  lemma LastPartNotLonger(prefix: string, sep: char, tail: string)
    requires sep !in tail
    ensures |Last(Split(prefix + [sep] + tail, sep))| <= |tail|
  {
    var s := prefix + [sep] + tail;
    SplitLast(s, sep);
    var last := Last(Split(s, sep));
    var n := |s|;
    forall k | n - |last| <= k < n
      ensures s[k] != sep
    {
      assert s[k] == last[k - (n - |last|)];
    }
    assert s[n - |tail| - 1] == sep;
  }

  lemma LastPartNotShorter(prefix: string, sep: char, tail: string)
    requires sep !in tail
    ensures |Last(Split(prefix + [sep] + tail, sep))| >= |tail|
  {
    var s := prefix + [sep] + tail;
    SplitLast(s, sep);
    var last := Last(Split(s, sep));
    var n := |s|;
    forall k | n - |tail| <= k < n
      ensures s[k] != sep
    {
      assert s[k] == tail[k - (n - |tail|)];
    }
  }

  /** The last part of a split is exactly the text after the last separator. */
  lemma LastPartAfterSeparator(prefix: string, sep: char, tail: string)
    requires sep !in tail
    ensures Last(Split(prefix + [sep] + tail, sep)) == tail
  {
    var s := prefix + [sep] + tail;
    LastPartNotLonger(prefix, sep, tail);
    LastPartNotShorter(prefix, sep, tail);
    SplitLast(s, sep);
    assert tail == s[|s| - |tail|..];
  }

  /** A string without the separator splits into itself alone. */
  lemma {:induction false} SplitWithoutSeparator(s: string, sep: char)
    requires sep !in s
    ensures Split(s, sep) == [s]
  {
    if s != [] {
      var init := s[..|s| - 1];
      assert s[|s| - 1] in s;
      SplitWithoutSeparator(init, sep);
      assert s == init + [s[|s| - 1]];
    }
  }
}
