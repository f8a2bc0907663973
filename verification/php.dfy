/** The parts of PHP's runtime the listener relies on: scalars decoded from
    JSON, truthiness, conversion to string, and the string functions it calls
    (`rtrim`, `basename`, `str_replace`, `explode`). */
module Php {
  import opened Wrappers

  /** A scalar entry of a decoded JSON object. A JSON `null` entry never
      appears: `isset` and `??` treat it exactly like a missing key, so an
      associative array below simply does not hold it. */
  datatype Value = Str(s: string) | Int(i: int) | Float(x: real)

  /** An associative array decoded from JSON, restricted to scalar entries. */
  type Assoc = map<string, Value>

  /** `$a[k] ?? null` */
  function Lookup(a: Assoc, k: string): Option<Value>
  {
    if k in a then Some(a[k]) else None
  }

  /** `$a[k] ?? d` */
  function Coalesce(a: Assoc, k: string, d: Value): Value
  {
    if k in a then a[k] else d
  }

  /** `!$v`: the scalars PHP converts to `false`. A string or an integer is
      falsy exactly when its string form is empty or "0". */
  function Falsy(v: Value): (b: bool)
    ensures v.Str? ==> (b <==> Empty(Some(v.s)))
    ensures v.Int? ==> (b <==> IntToString(v.i) == "0")
  {
    match v
    case Str(s) => s == "" || s == "0"
    case Int(i) => IntToStringZero(i); i == 0
    case Float(x) => x == 0.0
  }

  /** `empty($s)` for a nullable string: null, or a falsy string. */
  function Empty(s: Option<string>): (b: bool)
    ensures s.None? ==> b
    ensures s.Some? ==> (b <==> |s.value| == 0 || s.value == "0")
  {
    s.None? || s.value == "" || s.value == "0"
  }

  predicate IsDigit(c: char)
  {
    '0' <= c <= '9'
  }

  predicate AllDigits(s: string)
  {
    forall i :: 0 <= i < |s| ==> IsDigit(s[i])
  }

  function DigitChar(d: nat): (c: char)
    requires d < 10
    ensures IsDigit(c)
  {
    ('0' as int + d) as char
  }

  /** The decimal text of a natural number, as `(string)$n` or string
      interpolation of `time()` produces it. */
  function NatToString(n: nat): (r: string)
    ensures 0 < |r| && AllDigits(r)
    ensures |r| > 1 ==> r[0] != '0'
    decreases n
  {
    if n < 10 then [DigitChar(n)] else NatToString(n / 10) + [DigitChar(n % 10)]
  }

  /** The number a string of decimal digits denotes: the partner of `NatToString`. */
  function DigitsValue(s: string): nat
    requires AllDigits(s)
  {
    if |s| == 0 then 0 else DigitsValue(s[..|s| - 1]) * 10 + (s[|s| - 1] as int - '0' as int)
  }

  /** Reading back the decimal text of `n` gives `n`. */
  lemma {:induction false} DigitsValueOfNatToString(n: nat)
    ensures DigitsValue(NatToString(n)) == n
    decreases n
  {
    if n >= 10 {
      var s := NatToString(n / 10);
      DigitsValueOfNatToString(n / 10);
      assert NatToString(n) == s + [DigitChar(n % 10)];
      assert (s + [DigitChar(n % 10)])[..|s|] == s;
    }
  }

  /** Distinct numbers have distinct decimal texts. */
  lemma NatToStringInjective(m: nat, n: nat)
    requires NatToString(m) == NatToString(n)
    ensures m == n
  {
    DigitsValueOfNatToString(m);
    DigitsValueOfNatToString(n);
  }

  /** `(string)$i` for an integer. */
  function IntToString(i: int): string
  {
    if i < 0 then "-" + NatToString(-i) else NatToString(i)
  }

  /** Only zero is written "0". */
  lemma IntToStringZero(i: int)
    ensures IntToString(i) == "0" <==> i == 0
  {
  }

  /** The string PHP passes for a scalar given to a `string` parameter.
      Float formatting is not modelled; `floatText` stands for it. */
  function ToString(v: Value, floatText: real -> string): string
  {
    match v
    case Str(s) => s
    case Int(i) => IntToString(i)
    case Float(x) => floatText(x)
  }

  /** `rtrim($s, '/')`: the longest prefix of `s` that does not end in '/'
      and is followed only by slashes. */
  function RTrimSlash(s: string): (r: string)
    ensures r <= s
    ensures |r| == 0 || r[|r| - 1] != '/'
    ensures forall i :: |r| <= i < |s| ==> s[i] == '/'
    decreases |s|
  {
    if |s| > 0 && s[|s| - 1] == '/' then RTrimSlash(s[..|s| - 1]) else s
  }

  /** Splits `s` at the last occurrence of `c`. */
  function SplitLast(s: string, c: char): (r: Option<(string, string)>)
    ensures r.None? <==> c !in s
    ensures r.Some? ==> s == r.value.0 + [c] + r.value.1 && c !in r.value.1
    decreases |s|
  {
    if |s| == 0 then None
    else if s[|s| - 1] == c then Some((s[..|s| - 1], ""))
    else
      assert s == s[..|s| - 1] + [s[|s| - 1]];
      match SplitLast(s[..|s| - 1], c)
      case None => None
      case Some((a, b)) => Some((a, b + [s[|s| - 1]]))
  }

  /** Any split at an occurrence of `c` with no `c` after it is the one `SplitLast` finds. */
  lemma {:induction false} SplitLastAt(a: string, c: char, b: string)
    requires c !in b
    ensures SplitLast(a + [c] + b, c) == Some((a, b))
    decreases |b|
  {
    var s := a + [c] + b;
    if |b| == 0 {
      assert s[..|s| - 1] == a;
    } else {
      var b' := b[..|b| - 1];
      assert s[..|s| - 1] == a + [c] + b';
      assert s[|s| - 1] == b[|b| - 1];
      SplitLastAt(a, c, b');
      assert b' + [b[|b| - 1]] == b;
    }
  }

  /** PHP's `basename` on a POSIX path: trailing slashes are dropped, then
      the text after the last remaining slash is kept. */
  function Basename(p: string): (r: string)
    ensures '/' !in r
    ensures |r| <= |p|
    // the last segment of the path with its trailing slashes removed
    ensures var t := RTrimSlash(p);
            && |r| <= |t|
            && r == t[|t| - |r|..]
            && (|r| == |t| || t[|t| - |r| - 1] == '/')
  {
    var t := RTrimSlash(p);
    match SplitLast(t, '/')
    case None => t
    case Some((a, b)) =>
      assert t == a + ['/'] + b;
      assert t[|t| - |b|..] == b;
      b
  }

  /** The last segment of a slash-separated path is its basename. */
  lemma BasenameOfPath(dir: string, name: string)
    requires 0 < |name| && '/' !in name
    ensures Basename(dir + "/" + name) == name
  {
    var p := dir + "/" + name;
    assert p[|p| - 1] == name[|name| - 1];
    assert RTrimSlash(p) == p;
    assert p == dir + ['/'] + name;
    SplitLastAt(dir, '/', name);
  }

  /** `str_replace('.', '_', $s)` */
  function ReplaceDots(s: string): (r: string)
    ensures |r| == |s|
    ensures forall i :: 0 <= i < |s| ==> r[i] == (if s[i] == '.' then '_' else s[i])
  {
    if |s| == 0 then "" else [if s[0] == '.' then '_' else s[0]] + ReplaceDots(s[1..])
  }

  /** The text after the first occurrence of `c`, if there is one. */
  function AfterFirst(s: string, c: char): (r: Option<string>)
    ensures r.None? <==> c !in s
    ensures r.Some? ==> |r.value| < |s|
  {
    if |s| == 0 then None
    else if s[0] == c then Some(s[1..])
    else AfterFirst(s[1..], c)
  }

  lemma {:induction false} AfterFirstAt(a: string, c: char, b: string)
    requires c !in a
    ensures AfterFirst(a + [c] + b, c) == Some(b)
    decreases |a|
  {
    var s := a + [c] + b;
    if |a| > 0 {
      assert s[1..] == a[1..] + [c] + b;
      AfterFirstAt(a[1..], c, b);
    }
  }

  /** The text before the first occurrence of `c`, or all of `s`. */
  function Before(s: string, c: char): (r: string)
    ensures r <= s && c !in r
    ensures |r| < |s| ==> s[|r|] == c
  {
    if |s| == 0 || s[0] == c then "" else [s[0]] + Before(s[1..], c)
  }

  /** The second element of `explode(',', $s)`: the text between the first
      and the second comma. Without a comma PHP yields `null`, which reaches
      `base64_decode` as the empty string. */
  function ExplodeSecond(s: string): (r: string)
    ensures ',' !in r
    ensures ',' !in s ==> r == ""
    ensures ',' in s ==> r <= AfterFirst(s, ',').value
    // and it runs up to the second comma, or to the end when there is none
    ensures ',' in s ==> var t := AfterFirst(s, ',').value; |r| == |t| || t[|r|] == ','
  {
    match AfterFirst(s, ',')
    case None => ""
    case Some(t) => Before(t, ',')
  }

  /** With exactly one comma, the second element is everything after it. */
  lemma ExplodeSecondAt(a: string, b: string)
    requires ',' !in a && ',' !in b
    ensures ExplodeSecond(a + "," + b) == b
  {
    assert a + "," + b == a + [','] + b;
    AfterFirstAt(a, ',', b);
    assert Before(b, ',') <= b;
  }
}
