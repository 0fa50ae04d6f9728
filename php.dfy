/** PHP value semantics that the worker code relies on: optional values and
    errors, the `(string)` cast of scalars, falsy strings, array keys (a
    numeric string used as a key becomes an integer key), and PHP's ordered
    arrays, modelled as sequences of key/value pairs. */
module Php {

  datatype Option<+T> = None | Some(value: T)

  datatype Result<+R, +E> = Success(value: R) | Failure(error: E)

  /** The scalar values a body producer may yield or return. Floats and
      Stringable objects are not modelled. */
  datatype Scalar = Null | Bool(b: bool) | Int(i: int) | Str(s: string)

  function DigitChar(d: nat): (c: char)
    requires d < 10
    ensures '0' <= c <= '9'
  {
    ('0' as int + d) as char
  }

  /** Decimal rendering of a natural number, without leading zeros. */
  function NatToString(n: nat): (s: string)
    ensures |s| > 0 && '0' <= s[0] <= '9'
    ensures forall i :: 0 <= i < |s| ==> '0' <= s[i] <= '9'
    decreases n
  {
    if n < 10 then [DigitChar(n)] else NatToString(n / 10) + [DigitChar(n % 10)]
  }

  /** Decimal rendering of an integer, as PHP's `(string)$int`. */
  function IntToString(n: int): (s: string)
    ensures |s| > 0 && (s[0] == '-' || '0' <= s[0] <= '9')
  {
    if n < 0 then "-" + NatToString(-n) else NatToString(n)
  }

  /** PHP's `(string)` cast: null and false give '', true gives '1'. */
  function ToStr(v: Scalar): (s: string)
    ensures v.Str? ==> s == v.s
    ensures v.Null? ==> s == ""
    ensures v.Bool? ==> (s == "" <==> !v.b)
    ensures v.Bool? && v.b ==> s == "1"
    ensures v.Int? ==> s == IntToString(v.i)
  {
    match v
    case Null => ""
    case Bool(b) => if b then "1" else ""
    case Int(i) => IntToString(i)
    case Str(s) => s
  }

  /** `!$s` for a string: only '' and '0' are falsy. */
  predicate Falsy(s: string) {
    s == "" || s == "0"
  }

  function DigitValue(c: char): nat {
    var d := c as int - '0' as int;
    if 0 <= d < 10 then d else 0
  }

  function ParseDigits(s: string): nat
    decreases |s|
  {
    if s == [] then 0 else ParseDigits(s[..|s| - 1]) * 10 + DigitValue(s[|s| - 1])
  }

  function ParseInt(s: string): int {
    if |s| > 0 && s[0] == '-' then -(ParseDigits(s[1..]) as int) else ParseDigits(s)
  }

  const PHP_INT_MAX: int := 9223372036854775807
  const PHP_INT_MIN: int := -9223372036854775808

  /** A string PHP turns into an integer array key: the canonical decimal
      form (no sign other than '-', no leading zero, not "-0") of an integer
      in the platform's 64-bit range. */
  predicate IsIntegerKey(s: string) {
    |s| > 0 && PHP_INT_MIN <= ParseInt(s) <= PHP_INT_MAX && IntToString(ParseInt(s)) == s
  }

  datatype Key = IntKey(n: int) | StrKey(s: string)

  /** Reading a rendered natural number back gives the number. */
  lemma {:induction false} ParseNatToString(n: nat)
    ensures ParseDigits(NatToString(n)) == n
    decreases n
  {
    var s := NatToString(n);
    if n >= 10 {
      ParseNatToString(n / 10);
      assert s[..|s| - 1] == NatToString(n / 10);
    }
  }

  /** Reading a rendered integer back gives the integer. */
  lemma ParseIntToString(n: int)
    ensures ParseInt(IntToString(n)) == n
  {
    if n < 0 {
      ParseSigned(NatToString(-n));
      ParseNatToString(-n);
    } else {
      ParseNatToString(n);
    }
  }

  lemma ParseSigned(digits: string)
    ensures ParseInt("-" + digits) == -(ParseDigits(digits) as int)
  {
    assert ("-" + digits)[1..] == digits;
  }

  /** The canonical decimal form of a 64-bit integer is an integer key for
      that integer. */
  lemma CanonicalIntegerKeys(s: string)
    ensures forall n :: PHP_INT_MIN <= n <= PHP_INT_MAX && IntToString(n) == s ==> IsIntegerKey(s) && ParseInt(s) == n
  {
    forall n | PHP_INT_MIN <= n <= PHP_INT_MAX && IntToString(n) == s
      ensures IsIntegerKey(s) && ParseInt(s) == n
    {
      ParseIntToString(n);
    }
  }

  /** The key `$array[$s]` actually uses: the integer when `s` is the
      canonical decimal form of a 64-bit integer, the string otherwise. */
  function ArrayKey(s: string): (k: Key)
    ensures k.StrKey? ==> k.s == s
    ensures k.IntKey? ==> IntToString(k.n) == s && PHP_INT_MIN <= k.n <= PHP_INT_MAX
    ensures forall n :: PHP_INT_MIN <= n <= PHP_INT_MAX && IntToString(n) == s ==> k == IntKey(n)
  {
    CanonicalIntegerKeys(s);
    if IsIntegerKey(s) then IntKey(ParseInt(s)) else StrKey(s)
  }

  /** Distinct strings give distinct keys. */
  lemma ArrayKeyInjective(s: string, t: string)
    requires s != t
    ensures ArrayKey(s) != ArrayKey(t)
  {
  }

  /** A string that does not start with a digit or '-' stays a string key. */
  lemma NonNumericKey(s: string)
    requires |s| > 0 && s[0] != '-' && !('0' <= s[0] <= '9')
    ensures ArrayKey(s) == StrKey(s)
  {
  }

  /** A PHP array: entries in insertion order. */
  type Arr<V> = seq<(Key, V)>

  predicate DistinctKeys<V>(a: Arr<V>) {
    forall i, j :: 0 <= i < j < |a| ==> a[i].0 != a[j].0
  }

  predicate HasKey<V>(a: Arr<V>, k: Key) {
    exists i :: 0 <= i < |a| && a[i].0 == k
  }

  function KeysOf<V>(a: Arr<V>): (ks: seq<Key>)
    ensures |ks| == |a|
    ensures forall i :: 0 <= i < |a| ==> ks[i] == a[i].0
  {
    if a == [] then [] else [a[0].0] + KeysOf(a[1..])
  }

  /** `$a[$k] ?? null`. */
  function Get<V>(a: Arr<V>, k: Key): (r: Option<V>)
    ensures r.None? <==> !HasKey(a, k)
    ensures r.Some? ==> exists i :: 0 <= i < |a| && a[i] == (k, r.value)
  {
    if a == [] then None
    else if a[0].0 == k then Some(a[0].1)
    else
      var r := Get(a[1..], k);
      assert r.Some? ==> exists i :: 0 <= i < |a[1..]| && a[1..][i] == (k, r.value);
      assert r.Some? ==> exists i :: 0 <= i < |a| && a[i] == (k, r.value) by {
        if r.Some? {
          var i :| 0 <= i < |a[1..]| && a[1..][i] == (k, r.value);
          assert a[i + 1] == (k, r.value);
        }
      }
      assert HasKey(a[1..], k) ==> HasKey(a, k) by {
        if HasKey(a[1..], k) {
          var i :| 0 <= i < |a[1..]| && a[1..][i].0 == k;
          assert a[i + 1].0 == k;
        }
      }
      assert HasKey(a, k) ==> HasKey(a[1..], k) by {
        if HasKey(a, k) {
          var i :| 0 <= i < |a| && a[i].0 == k;
          assert i > 0 && a[1..][i - 1].0 == k;
        }
      }
      r
  }

  /** In an array with distinct keys, each key finds its own entry. */
  lemma {:induction false} GetDistinct<V>(a: Arr<V>, i: nat)
    requires DistinctKeys(a) && i < |a|
    ensures Get(a, a[i].0) == Some(a[i].1)
  {
    if i > 0 {
      assert a[0].0 != a[i].0;
      assert a[1..][i - 1] == a[i];
      GetDistinct(a[1..], i - 1);
    }
  }

  /** `$a[$k] = $v`: an existing key keeps its place, a new one is appended. */
  function Put<V>(a: Arr<V>, k: Key, v: V): Arr<V>
  {
    if a == [] then [(k, v)]
    else if a[0].0 == k then [(k, v)] + a[1..]
    else [a[0]] + Put(a[1..], k, v)
  }

  /** `unset($a[$k])`. */
  function Remove<V>(a: Arr<V>, k: Key): Arr<V>
  {
    if a == [] then []
    else if a[0].0 == k then a[1..]
    else [a[0]] + Remove(a[1..], k)
  }

  /** `$a + $b`: the entries of a, then those of b whose key a lacks. */
  function Union<V>(a: Arr<V>, b: Arr<V>): Arr<V>
  {
    a + MissingFrom(a, b)
  }

  function MissingFrom<V>(a: Arr<V>, b: Arr<V>): Arr<V>
  {
    if b == [] then []
    else (if HasKey(a, b[0].0) then [] else [b[0]]) + MissingFrom(a, b[1..])
  }

  lemma {:induction false} GetPut<V>(a: Arr<V>, k: Key, v: V, j: Key)
    ensures Get(Put(a, k, v), j) == if j == k then Some(v) else Get(a, j)
  {
    if a != [] && a[0].0 != k {
      GetPut(a[1..], k, v, j);
      assert Put(a, k, v)[1..] == Put(a[1..], k, v);
    }
  }

  lemma {:induction false} PutAppends<V>(a: Arr<V>, k: Key, v: V)
    requires !HasKey(a, k)
    ensures Put(a, k, v) == a + [(k, v)]
  {
    if a != [] {
      assert a[0].0 != k;
      forall i | 0 <= i < |a[1..]| ensures a[1..][i].0 != k {
        assert a[1..][i] == a[i + 1];
      }
      PutAppends(a[1..], k, v);
      assert a == [a[0]] + a[1..];
    }
  }

  lemma {:induction false} GetMissingFrom<V>(a: Arr<V>, b: Arr<V>, k: Key)
    requires !HasKey(a, k)
    ensures Get(MissingFrom(a, b), k) == Get(b, k)
  {
    if b != [] {
      GetMissingFrom(a, b[1..], k);
      var rest := MissingFrom(a, b[1..]);
      if HasKey(a, b[0].0) {
        assert b[0].0 != k;
        assert MissingFrom(a, b) == rest;
      } else {
        assert MissingFrom(a, b) == [b[0]] + rest;
        assert ([b[0]] + rest)[1..] == rest;
      }
    }
  }

  lemma GetAppend<V>(a: Arr<V>, b: Arr<V>, k: Key)
    ensures Get(a + b, k) == if HasKey(a, k) then Get(a, k) else Get(b, k)
    decreases |a|
  {
    if a != [] {
      assert (a + b)[0] == a[0];
      assert (a + b)[1..] == a[1..] + b;
      GetAppend(a[1..], b, k);
      if a[0].0 == k {
        assert HasKey(a, k) by { assert a[0].0 == k; }
      } else {
        assert Get(a + b, k) == Get(a[1..] + b, k);
        assert Get(a, k) == Get(a[1..], k);
        assert HasKey(a, k) <==> HasKey(a[1..], k) by {
          if HasKey(a, k) {
            var i :| 0 <= i < |a| && a[i].0 == k;
            assert a[1..][i - 1].0 == k;
          }
          if HasKey(a[1..], k) {
            var i :| 0 <= i < |a[1..]| && a[1..][i].0 == k;
            assert a[i + 1].0 == k;
          }
        }
      }
    } else {
      assert a + b == b;
    }
  }

  /** The left operand of `+` always wins; a key it lacks comes from the right. */
  lemma GetUnion<V>(a: Arr<V>, b: Arr<V>, k: Key)
    ensures Get(Union(a, b), k) == if HasKey(a, k) then Get(a, k) else Get(b, k)
  {
    GetAppend(a, MissingFrom(a, b), k);
    if !HasKey(a, k) {
      GetMissingFrom(a, b, k);
    }
  }

  lemma AppendAssoc<T>(a: seq<T>, b: seq<T>, c: seq<T>)
    ensures (a + b) + c == a + (b + c)
  {
  }

  /** `implode($sep, $parts)`. */
  function Implode(sep: string, parts: seq<string>): string
  {
    if parts == [] then ""
    else if |parts| == 1 then parts[0]
    else parts[0] + sep + Implode(sep, parts[1..])
  }

  /** `implode('', $parts)`. */
  function Concat(parts: seq<string>): string
  {
    if parts == [] then "" else parts[0] + Concat(parts[1..])
  }

  lemma {:induction false} ConcatAppend(a: seq<string>, b: seq<string>)
    ensures Concat(a + b) == Concat(a) + Concat(b)
  {
    if a != [] {
      assert (a + b)[0] == a[0];
      assert (a + b)[1..] == a[1..] + b;
      ConcatAppend(a[1..], b);
      calc {
        Concat(a + b);
        a[0] + Concat(a[1..] + b);
        a[0] + (Concat(a[1..]) + Concat(b));
        (a[0] + Concat(a[1..])) + Concat(b);
      }
    } else {
      assert a + b == b;
    }
  }

  /** `substr($s, $offset)` in PHP 8: a negative offset counts from the end,
      an offset past the end gives ''. */
  function SubstrFrom(s: string, offset: int): (r: string)
    ensures offset >= 0 ==> r == if offset <= |s| then s[offset..] else ""
  {
    if offset >= 0 then (if offset <= |s| then s[offset..] else "")
    else if |s| + offset >= 0 then s[|s| + offset..]
    else s
  }

  /** `strtoupper`: ASCII letters only, as since PHP 8.2. */
  function Upper(s: string): (r: string)
    ensures |r| == |s|
    ensures forall i :: 0 <= i < |s| ==>
      r[i] == if 'a' <= s[i] <= 'z' then (s[i] as int - 32) as char else s[i]
  {
    if s == [] then []
    else [if 'a' <= s[0] <= 'z' then (s[0] as int - 32) as char else s[0]] + Upper(s[1..])
  }

  /** `str_replace($from, $to, $s)` for one-character search and replacement. */
  function ReplaceChar(s: string, from: char, to: char): (r: string)
    ensures |r| == |s|
    ensures forall i :: 0 <= i < |s| ==> r[i] == if s[i] == from then to else s[i]
  {
    if s == [] then []
    else [if s[0] == from then to else s[0]] + ReplaceChar(s[1..], from, to)
  }
}
