/** The alphabet-mapping codec of src/utils/mapEncode.ts.

    `mapEncode` percent-encodes the text, then writes every UTF-16 code unit of the
    result as `width` base-`n` digits, most significant first, each digit spelled by the
    alphabet symbol at that index. `mapDecode` trims, validates, looks every symbol up
    and rebuilds one code unit per group of `width` symbols before percent-decoding.

    `encodeURIComponent` and `decodeURIComponent` are parameters: `None` stands for the
    `URIError` they throw. */
module MapEncode {
  import opened Wrappers
  import opened JsString
  import opened JsArray

  /** The codes of `MapEncodeError`, plus the `URIError` of the percent-encoding built-ins. */
  datatype Error =
    | InvalidAlphabet
    | InvalidLength(width: nat, length: nat)
    | InvalidChar(ch: Option<Str>)
    | UriError

  /** `CHARCODE_MAX`: every code unit is below it. */
  const CharCodeMax: nat := 0x1_0000

  // ---------------------------------------------------------------------------
  // Arithmetic

  function Pow(b: nat, e: nat): (p: nat)
    ensures b >= 1 ==> p >= 1
  {
    if e == 0 then 1 else b * Pow(b, e - 1)
  }

  lemma PowFacts()
    ensures Pow(2, 15) == 32768 && Pow(2, 16) == CharCodeMax
    ensures Pow(10, 4) == 10000 && Pow(10, 5) == 100000
    ensures Pow(16, 4) == CharCodeMax
  {
    assert Pow(2, 4) == 16;
    assert Pow(2, 8) == 16 * 16 by {
      assert Pow(2, 5) == 32 && Pow(2, 6) == 64 && Pow(2, 7) == 128;
    }
    assert Pow(2, 12) == 4096 by {
      assert Pow(2, 9) == 512 && Pow(2, 10) == 1024 && Pow(2, 11) == 2048;
    }
    assert Pow(2, 15) == 32768 by {
      assert Pow(2, 13) == 8192 && Pow(2, 14) == 16384;
    }
    assert Pow(10, 4) == 10000 by {
      assert Pow(10, 2) == 100 && Pow(10, 3) == 1000;
    }
    assert Pow(16, 4) == CharCodeMax by {
      assert Pow(16, 2) == 256 && Pow(16, 3) == 4096;
    }
  }

  lemma MulMonotone(a: nat, b: nat, x: nat, y: nat)
    requires a <= b && x <= y
    ensures a * x <= b * y
  {
    assert a * x <= b * x;
    assert b * x <= b * y;
  }

  lemma {:induction false} PowMonotoneExponent(b: nat, e: nat, f: nat)
    requires b >= 1 && e <= f
    ensures Pow(b, e) <= Pow(b, f)
    decreases f
  {
    if e < f {
      PowMonotoneExponent(b, e, f - 1);
      MulMonotone(1, b, Pow(b, f - 1), Pow(b, f - 1));
    }
  }

  lemma {:induction false} PowMonotoneBase(a: nat, b: nat, e: nat)
    requires a <= b
    ensures Pow(a, e) <= Pow(b, e)
  {
    if e > 0 {
      PowMonotoneBase(a, b, e - 1);
      MulMonotone(a, b, Pow(a, e - 1), Pow(b, e - 1));
    }
  }

  /** Euclidean division has one quotient and one remainder. */
  lemma DivModUnique(x: int, d: int, q: int, r: int)
    requires d > 0 && 0 <= r < d && x == q * d + r
    ensures x / d == q && x % d == r
  {
    var q0, r0 := x / d, x % d;
    assert (q - q0) * d == r0 - r;
    if q > q0 {
      MulMonotone(1, q - q0, d, d);
    } else if q < q0 {
      MulMonotone(1, q0 - q, d, d);
    }
  }

  lemma MulSucc(a: nat, w: nat)
    ensures (a + 1) * w == a * w + w
  {
  }

  lemma DivModSplit(x: nat, n: nat)
    requires n > 0
    ensures x == (x / n) * n + x % n && x % n < n
  {
  }

  lemma DivShrinks(x: nat, n: nat)
    requires x > 0 && n >= 2
    ensures x / n < x
  {
    var q := x / n;
    assert x == q * n + x % n;
    MulMonotone(1, 2, q, q);
    MulMonotone(2, n, q, q);
  }

  /** The low digit and the remaining digits below `n * p` recombine to `x % (n * p)`. */
  lemma ModOfProduct(x: nat, n: nat, p: nat)
    requires n >= 1 && p >= 1
    ensures ((x / n) % p) * n + x % n == x % (n * p)
  {
    var q, r := x / n, x % n;
    var a, b := q / p, q % p;
    DivModSplit(x, n);
    DivModSplit(q, p);
    Regroup(a, b, p, n, r);
    LowPartBelow(b, p, n, r);
    DivModUnique(x, n * p, a, b * n + r);
  }

  lemma Regroup(a: int, b: int, p: int, n: int, r: int)
    ensures (a * p + b) * n + r == a * (n * p) + (b * n + r)
  {
  }

  lemma LowPartBelow(b: nat, p: nat, n: nat, r: nat)
    requires b < p && r < n
    ensures b * n + r < n * p
  {
    MulMonotone(b, p - 1, n, n);
  }

  // ---------------------------------------------------------------------------
  // digitsPerChar

  /** The least `v >= w` with `n^v >= 65536`. */
  function LeastWidth(n: nat, w: nat): (r: nat)
    requires n >= 2 && 4 <= w <= 16
    ensures w <= r <= 16
    ensures Pow(n, r) >= CharCodeMax
    ensures forall v :: w <= v < r ==> Pow(n, v) < CharCodeMax
    decreases 16 - w
  {
    if Pow(n, w) >= CharCodeMax then w
    else
      PowMonotoneBase(2, n, 16);
      PowFacts();
      LeastWidth(n, w + 1)
  }

  /** `digitsPerChar(n)`: the number of base-`n` digits written per code unit, the least
      `w >= 4` with `n^w >= 65536` (16 for a degenerate `n <= 1`). */
  function DigitsPerChar(n: nat): (w: nat)
    ensures 4 <= w <= 16
    ensures n <= 1 ==> w == 16
    ensures n >= 2 ==> Pow(n, w) >= CharCodeMax
    ensures n >= 2 ==> forall v :: 4 <= v < w ==> Pow(n, v) < CharCodeMax
  {
    if n <= 1 then 16 else LeastWidth(n, 4)
  }

  lemma DigitsPerCharExamples()
    ensures DigitsPerChar(2) == 16
    ensures DigitsPerChar(10) == 5
    ensures DigitsPerChar(16) == 4
  {
    PowFacts();
    var w := DigitsPerChar(2);
    if w < 16 {
      PowMonotoneExponent(2, w, 15);
    }
  }

  /** From 16 symbols on, four digits always suffice. */
  lemma DigitsPerCharLarge(n: nat)
    requires n >= 16
    ensures DigitsPerChar(n) == 4
  {
    PowFacts();
    PowMonotoneBase(16, n, 4);
  }

  // ---------------------------------------------------------------------------
  // parseAlphabet

  /** What `parseAlphabet` accepts: at least two code points, none repeated. */
  predicate ValidAlphabet(alphabet: Str) {
    var chars := CodePoints(alphabet);
    |chars| >= 2 && Distinct(chars)
  }

  /** `parseAlphabet`: the alphabet's code points, or `INVALID_ALPHABET`. */
  function ParseAlphabet(alphabet: Str): (r: Result<seq<Str>, Error>)
    ensures r.Success? <==> ValidAlphabet(alphabet)
    ensures r.Success? ==> r.value == CodePoints(alphabet)
    ensures r.Failure? ==> r.error == InvalidAlphabet
  {
    var chars := CodePoints(alphabet);
    var n := |chars|;
    if n < 2 then Failure(InvalidAlphabet)
    else
      SetSizeIffDistinct(chars);
      if |SetOf(chars)| != n then Failure(InvalidAlphabet)
      else Success(chars)
  }

  // ---------------------------------------------------------------------------
  // toBaseN and fromBaseN

  /** The `w` lowest base-`n` digits of `x`, most significant first. */
  function ToDigits(x: nat, n: nat, w: nat): (r: seq<nat>)
    requires n >= 2
    ensures |r| == w
    ensures forall k :: 0 <= k < w ==> r[k] < n
  {
    if w == 0 then [] else ToDigits(x / n, n, w - 1) + [x % n]
  }

  /** The number a most-significant-first digit string denotes in base `n`. */
  function Value(ds: seq<nat>, n: nat): nat {
    if ds == [] then 0 else Value(ds[..|ds| - 1], n) * n + ds[|ds| - 1]
  }

  lemma ValueSnoc(ds: seq<nat>, d: nat, n: nat)
    ensures Value(ds + [d], n) == Value(ds, n) * n + d
  {
    assert (ds + [d])[..|ds|] == ds;
  }

  /** Reading back `w` digits of `x` gives `x` modulo `n^w`: the digits above are lost. */
  lemma {:induction false} ValueOfToDigits(x: nat, n: nat, w: nat)
    requires n >= 2
    ensures Value(ToDigits(x, n, w), n) == x % Pow(n, w)
    decreases w
  {
    if w == 0 {
      DivModUnique(x, 1, x, 0);
    } else {
      var t := ToDigits(x / n, n, w - 1);
      var p := Pow(n, w - 1);
      assert ToDigits(x, n, w) == t + [x % n];
      ValueSnoc(t, x % n, n);
      ValueOfToDigits(x / n, n, w - 1);
      ModOfProduct(x, n, p);
      assert Pow(n, w) == n * p;
    }
  }

  /** Writing the value of a digit string with as many digits gives the string back. */
  lemma {:induction false} ToDigitsOfValue(ds: seq<nat>, n: nat)
    requires n >= 2
    requires forall k :: 0 <= k < |ds| ==> ds[k] < n
    ensures ToDigits(Value(ds, n), n, |ds|) == ds
  {
    if ds != [] {
      var init, d := ds[..|ds| - 1], ds[|ds| - 1];
      var v := Value(init, n);
      DivModUnique(v * n + d, n, v, d);
      ToDigitsOfValue(init, n);
      assert ds == init + [d];
    }
  }

  /** The last `w` of `k` digits of `x` are its `w` lowest digits. */
  lemma {:induction false} ToDigitsSuffix(x: nat, n: nat, k: nat, w: nat)
    requires n >= 2 && w <= k
    ensures ToDigits(x, n, k)[k - w..] == ToDigits(x, n, w)
    decreases w
  {
    if w > 0 {
      ToDigitsSuffix(x / n, n, k - 1, w - 1);
      var a := ToDigits(x / n, n, k - 1);
      assert ToDigits(x, n, k) == a + [x % n];
      assert (a + [x % n])[k - w..] == a[k - 1 - (w - 1)..] + [x % n];
    }
  }

  lemma ShiftDigit(d: nat, p: nat, v: nat, n: nat, last: nat)
    ensures (d * p + v) * n + last == d * (n * p) + (v * n + last)
  {
  }

  lemma RegroupLowDigit(num: nat, x: nat, p: nat, v: nat, n: nat, q: nat, d: nat)
    requires num == x * p + v && x == q * n + d
    ensures num == q * (n * p) + (d * p + v)
  {
    calc {
      x * p;
      (q * n + d) * p;
      q * n * p + d * p;
    }
  }

  /** Value of a digit string with a digit put in front. */
  lemma {:induction false} ValueCons(d: nat, rest: seq<nat>, n: nat)
    ensures Value([d] + rest, n) == d * Pow(n, |rest|) + Value(rest, n)
    decreases |rest|
  {
    if rest == [] {
      assert [d] + rest == [] + [d];
      ValueSnoc([], d, n);
    } else {
      var init, last := rest[..|rest| - 1], rest[|rest| - 1];
      assert [d] + rest == ([d] + init) + [last];
      assert rest == init + [last];
      ValueSnoc([d] + init, last, n);
      ValueSnoc(init, last, n);
      ValueCons(d, init, n);
      ShiftDigit(d, Pow(n, |init|), Value(init, n), n, last);
    }
  }

  /** The digits of `num` are split between `x`, which still holds the high ones, and
      `ds`, which holds the low ones least significant first. */
  ghost predicate DigitsSplit(num: nat, n: nat, ds: seq<nat>, x: nat) {
    && (forall k :: 0 <= k < |ds| ==> ds[k] < n)
    && num == x * Pow(n, |ds|) + Value(Reverse(ds), n)
  }

  /** Before any digit is pushed, `num` holds them all. */
  lemma DigitsSplitStart(num: nat, n: nat)
    ensures DigitsSplit(num, n, [], num)
  {
    var none: seq<nat> := [];
    assert Reverse(none) == [];
  }

  /** Pushing the low digit of `x` and dividing `x` by `n` keeps the split. */
  lemma ToBaseNStep(num: nat, n: nat, ds: seq<nat>, x: nat)
    requires n >= 2
    requires DigitsSplit(num, n, ds, x)
    ensures DigitsSplit(num, n, ds + [x % n], x / n)
  {
    var p: nat, q: nat, d: nat, v: nat := Pow(n, |ds|), x / n, x % n, Value(Reverse(ds), n);
    ReverseSnoc(ds, d);
    ValueCons(d, Reverse(ds), n);
    assert |Reverse(ds)| == |ds|;
    assert Value(Reverse(ds + [d]), n) == d * p + v;
    assert Pow(n, |ds + [d]|) == n * p;
    DivModSplit(x, n);
    RegroupLowDigit(num, x, p, v, n, q, d);
  }

  /** Once `x` is used up, a zero digit can be pushed at will. */
  lemma PadStep(num: nat, n: nat, ds: seq<nat>)
    requires n >= 2
    requires DigitsSplit(num, n, ds, 0)
    ensures DigitsSplit(num, n, ds + [0], 0)
  {
    ToBaseNStep(num, n, ds, 0);
  }

  /** Once `x` is used up, the last `width` of the reversed digits are the lowest
      `width` digits of `num`. */
  lemma DigitsSplitDone(num: nat, n: nat, ds: seq<nat>, width: nat)
    requires n >= 2 && width <= |ds|
    requires DigitsSplit(num, n, ds, 0)
    ensures Reverse(ds)[|ds| - width..] == ToDigits(num, n, width)
  {
    var r := Reverse(ds);
    assert forall k :: 0 <= k < |r| ==> r[k] < n by {
      forall k | 0 <= k < |r| ensures r[k] < n {
        assert r[k] == ds[|ds| - 1 - k];
      }
    }
    ToDigitsOfValue(r, n);
    ToDigitsSuffix(num, n, |ds|, width);
  }

  /** `toBaseN(num, n, width)`: collect digits least significant first until the number
      is used up (at least one), pad with zeros to `width`, reverse, keep the last
      `width`. */
  method ToBaseN(num: nat, n: nat, width: nat) returns (digits: seq<nat>)
    requires n >= 2
    requires width >= 1
    ensures digits == ToDigits(num, n, width)
  {
    var ds: seq<nat> := [];
    var x: nat := num;
    DigitsSplitStart(num, n);
    // the first pass of the do-while
    ToBaseNStep(num, n, ds, x);
    ds := ds + [x % n];
    x := x / n;
    while x > 0
      invariant DigitsSplit(num, n, ds, x)
      decreases x
    {
      ToBaseNStep(num, n, ds, x);
      DivShrinks(x, n);
      ds := ds + [x % n];
      x := x / n;
    }
    while |ds| < width
      invariant DigitsSplit(num, n, ds, 0)
      decreases width - |ds|
    {
      PadStep(num, n, ds);
      ds := ds + [0];
    }
    DigitsSplitDone(num, n, ds, width);
    digits := Reverse(ds)[|ds| - width..];
  }

  /** `fromBaseN(digits, n)`: the positional sum, most significant digit first. */
  method FromBaseN(digits: seq<nat>, n: nat) returns (val: nat)
    ensures val == Value(digits, n)
  {
    val := 0;
    var i := 0;
    while i < |digits|
      invariant 0 <= i <= |digits|
      invariant val == Value(digits[..i], n)
    {
      assert digits[..i + 1][..i] == digits[..i];
      val := val * n + digits[i];
      i := i + 1;
    }
    assert digits[..i] == digits;
  }

  // ---------------------------------------------------------------------------
  // The code-unit layer of mapEncode

  /** The alphabet symbols that spell a digit string. */
  function Spell(ds: seq<nat>, chars: seq<Str>): seq<Str>
    requires forall k :: 0 <= k < |ds| ==> ds[k] < |chars|
  {
    seq(|ds|, k requires 0 <= k < |ds| => chars[ds[k]])
  }

  /** The symbols `mapEncode` pushes for the code units `s`: `width` per unit, in order. */
  function EncodeUnits(s: seq<CodeUnit>, chars: seq<Str>, width: nat): (r: seq<Str>)
    requires |chars| >= 2
    ensures |r| == width * |s|
    ensures forall k :: 0 <= k < |r| ==> r[k] in chars
  {
    if s == [] then []
    else Spell(ToDigits(s[0], |chars|, width), chars) + EncodeUnits(s[1..], chars, width)
  }

  /** Group `k` of the output spells the `width` digits of code unit `k`. */
  lemma {:induction false} EncodeUnitsGroup(s: seq<CodeUnit>, chars: seq<Str>, width: nat, k: nat)
    requires |chars| >= 2 && k < |s|
    ensures width * k + width <= width * |s|
    ensures EncodeUnits(s, chars, width)[width * k..width * k + width]
         == Spell(ToDigits(s[k], |chars|, width), chars)
  {
    var head := Spell(ToDigits(s[0], |chars|, width), chars);
    var tail := EncodeUnits(s[1..], chars, width);
    assert EncodeUnits(s, chars, width) == head + tail;
    GroupOffsets(width, k, |s|);
    if k == 0 {
      assert (head + tail)[0..width] == head;
    } else {
      EncodeUnitsGroup(s[1..], chars, width, k - 1);
      SliceAfter(head, tail, width * (k - 1), width * (k - 1) + width);
    }
  }

  lemma GroupOffsets(width: nat, k: nat, len: nat)
    requires k < len
    ensures width * k + width <= width * len
    ensures k == 0 ==> width * k == 0
    ensures k > 0 ==> width * k == width + width * (k - 1)
    ensures k > 0 ==> width * (len - 1) == width * len - width
  {
    MulMonotone(k + 1, len, width, width);
  }

  /** A slice of the part after `a` in `a + b`. */
  lemma SliceAfter<T>(a: seq<T>, b: seq<T>, i: nat, j: nat)
    requires i <= j <= |b|
    ensures (a + b)[|a| + i..|a| + j] == b[i..j]
  {
  }

  // ---------------------------------------------------------------------------
  // The code-unit layer of mapDecode

  /** The `charToIndex` map once every `chars[i]` has been set to `i`, in order. */
  function IndexMap(chars: seq<Str>): (m: map<Str, nat>)
    ensures forall c :: c in m <==> c in chars
    ensures forall c :: c in m ==> m[c] < |chars| && chars[m[c]] == c
    ensures Distinct(chars) ==> forall i :: 0 <= i < |chars| ==> m[chars[i]] == i
  {
    if chars == [] then map[]
    else IndexMap(chars[..|chars| - 1])[chars[|chars| - 1] := |chars| - 1]
  }

  /** `r` with `prefix` put in front of its value; a failure passes through. */
  function Prefixed<T>(prefix: seq<T>, r: Result<seq<T>, Error>): Result<seq<T>, Error> {
    match r
    case Success(v) => Success(prefix + v)
    case Failure(e) => Failure(e)
  }

  lemma PrefixedNil<T>(r: Result<seq<T>, Error>)
    ensures Prefixed([], r) == r
  {
    if r.Success? {
      assert [] + r.value == r.value;
    }
  }

  lemma PrefixedPrefixed<T>(a: seq<T>, b: seq<T>, r: Result<seq<T>, Error>)
    ensures Prefixed(a, Prefixed(b, r)) == Prefixed(a + b, r)
  {
    if r.Success? {
      assert a + (b + r.value) == (a + b) + r.value;
    }
  }

  /** `codePoints[j]`, `undefined` past the end. */
  function At(cps: seq<Str>, j: nat): Option<Str> {
    if j < |cps| then Some(cps[j]) else None
  }

  /** The code points from position `i` on; none once `i` is past the end. */
  function Drop(cps: seq<Str>, i: nat): (r: seq<Str>)
    ensures |r| == if i <= |cps| then |cps| - i else 0
    ensures forall j: nat :: At(r, j) == At(cps, i + j)
  {
    if i <= |cps| then cps[i..] else []
  }

  /** `ch ?? ''`. */
  function KeyOf(ch: Option<Str>): Str {
    match ch
    case Some(c) => c
    case None => []
  }

  /** The digits of positions `j..width-1` of the group starting at `cps[0]`, looked up
      left to right; the first position without an index fails with `INVALID_CHAR`. */
  function GroupDigits(cps: seq<Str>, index: map<Str, nat>, j: nat, width: nat)
    : (r: Result<seq<nat>, Error>)
    ensures r.Success? ==> |r.value| == if j <= width then width - j else 0
    ensures r.Success? ==> forall k :: 0 <= k < |r.value| ==> r.value[k] in index.Values
    ensures r.Failure? ==> r.error.InvalidChar?
    decreases width - j
  {
    if j >= width then Success([])
    else
      var ch := At(cps, j);
      if KeyOf(ch) !in index then Failure(InvalidChar(ch))
      else Prefixed([index[KeyOf(ch)]], GroupDigits(cps, index, j + 1, width))
  }

  /** `String.fromCharCode(code)`: the number is taken modulo 2^16. */
  function FromCharCode(code: nat): (u: CodeUnit)
    ensures code < CharCodeMax ==> u == code
    ensures (code - u) % CharCodeMax == 0
  {
    code % CharCodeMax
  }

  /** The code units `mapDecode` rebuilds from its code points, one per group of `width`. */
  function DecodeGroups(cps: seq<Str>, index: map<Str, nat>, n: nat, width: nat)
    : (r: Result<seq<CodeUnit>, Error>)
    requires width >= 1
    ensures r.Failure? ==> r.error.InvalidChar?
    decreases |cps|
  {
    if cps == [] then Success([])
    else
      match GroupDigits(cps, index, 0, width)
      case Failure(e) => Failure(e)
      case Success(ds) =>
        Prefixed([FromCharCode(Value(ds, n))], DecodeGroups(Drop(cps, width), index, n, width))
  }

  /** The indices of symbols that all have one. */
  function Indices(cs: seq<Str>, index: map<Str, nat>): seq<nat>
    requires forall k :: 0 <= k < |cs| ==> cs[k] in index
  {
    seq(|cs|, k requires 0 <= k < |cs| => index[cs[k]])
  }

  /** A full group of known symbols yields their indices. */
  lemma {:induction false} GroupDigitsSucceed(cps: seq<Str>, index: map<Str, nat>, j: nat, width: nat)
    requires j <= width <= |cps|
    requires forall k :: j <= k < width ==> cps[k] in index
    ensures GroupDigits(cps, index, j, width) == Success(Indices(cps[j..width], index))
    decreases width - j
  {
    if j < width {
      GroupDigitsSucceed(cps, index, j + 1, width);
      assert Indices(cps[j..width], index) == [index[cps[j]]] + Indices(cps[j + 1..width], index);
    }
  }

  /** A group fails with `INVALID_CHAR` naming its first position that has no index. */
  lemma {:induction false} GroupDigitsFail(cps: seq<Str>, index: map<Str, nat>, j: nat, width: nat, f: nat)
    requires [] !in index
    requires j <= f < width && f <= |cps|
    requires f < |cps| ==> cps[f] !in index
    requires forall k :: j <= k < f ==> cps[k] in index
    ensures GroupDigits(cps, index, j, width) == Failure(InvalidChar(At(cps, f)))
    decreases f - j
  {
    if j < f {
      GroupDigitsFail(cps, index, j + 1, width, f);
    }
  }

  lemma ModStep(m: nat, w: nat)
    requires w >= 1 && m >= w
    ensures (m - w) % w == m % w
    ensures (m - w) / w == m / w - 1
  {
    DivModUnique(m, w, (m - w) / w + 1, (m - w) % w);
  }

  /** A whole group of known symbols is read, then the rest; the first position without
      an index, or the missing tail of a short last group, fails with `INVALID_CHAR`. */
  lemma {:induction false} DecodeGroupsFail(cps: seq<Str>, index: map<Str, nat>, n: nat, width: nat, p: nat)
    requires width >= 1 && [] !in index
    requires p <= |cps|
    requires forall k :: 0 <= k < p ==> cps[k] in index
    requires p < |cps| ==> cps[p] !in index
    requires p < |cps| || |cps| % width != 0
    ensures DecodeGroups(cps, index, n, width) == Failure(InvalidChar(At(cps, p)))
    decreases |cps|
  {
    if p < width {
      DecodeGroupsFailHere(cps, index, n, width, p);
    } else {
      DecodeGroupsSkip(cps, index, n, width);
      var rest := cps[width..];
      if p == |cps| {
        ModStep(|cps|, width);
      }
      DecodeGroupsFail(rest, index, n, width, p - width);
      assert At(rest, p - width) == At(cps, p);
    }
  }

  /** A first group with an unknown position fails at once. */
  lemma DecodeGroupsFailHere(cps: seq<Str>, index: map<Str, nat>, n: nat, width: nat, p: nat)
    requires width >= 1 && [] !in index
    requires p <= |cps| && p < width
    requires forall k :: 0 <= k < p ==> cps[k] in index
    requires p < |cps| ==> cps[p] !in index
    requires p < |cps| || |cps| % width != 0
    ensures DecodeGroups(cps, index, n, width) == Failure(InvalidChar(At(cps, p)))
  {
    GroupDigitsFail(cps, index, 0, width, p);
  }

  /** A first group of known symbols is read, then the rest. */
  lemma DecodeGroupsSkip(cps: seq<Str>, index: map<Str, nat>, n: nat, width: nat)
    requires 1 <= width <= |cps|
    requires forall k :: 0 <= k < width ==> cps[k] in index
    ensures DecodeGroups(cps, index, n, width)
         == Prefixed([FromCharCode(Value(Indices(cps[0..width], index), n))], DecodeGroups(cps[width..], index, n, width))
  {
    GroupDigitsSucceed(cps, index, 0, width);
    assert Drop(cps, width) == cps[width..];
  }

  /** Known symbols in whole groups decode to one code unit per group. */
  lemma {:induction false} DecodeGroupsSucceed(cps: seq<Str>, index: map<Str, nat>, n: nat, width: nat)
    requires width >= 1
    requires forall k :: 0 <= k < |cps| ==> cps[k] in index
    requires |cps| % width == 0
    ensures DecodeGroups(cps, index, n, width).Success?
    ensures |DecodeGroups(cps, index, n, width).value| * width == |cps|
    decreases |cps|
  {
    if cps != [] {
      if |cps| < width {
        DivModUnique(|cps|, width, 0, |cps|);
      }
      GroupDigitsSucceed(cps, index, 0, width);
      ModStep(|cps|, width);
      DecodeGroupsSucceed(cps[width..], index, n, width);
      assert Drop(cps, width) == cps[width..];
      var rest := DecodeGroups(cps[width..], index, n, width).value;
      assert |DecodeGroups(cps, index, n, width).value| == |rest| + 1;
      MulSucc(|rest|, width);
    }
  }

  lemma SliceOfSuffix<T>(s: seq<T>, d: nat, i: nat, j: nat)
    requires d + j <= |s| && i <= j
    ensures s[d..][i..j] == s[d + i..d + j]
  {
  }

  lemma NextGroup(width: nat, k: nat, len: nat)
    requires k > 0 && width * k + width <= len
    ensures width * (k - 1) + width <= len - width
    ensures width + width * (k - 1) == width * k
  {
  }

  /** Group k - 1 of the code points after the first group is group k of all of them. */
  lemma GroupOfRest<T>(s: seq<T>, width: nat, k: nat)
    requires k > 0 && width * k + width <= |s|
    ensures width * (k - 1) + width <= |s| - width
    ensures s[width..][width * (k - 1)..width * (k - 1) + width] == s[width * k..width * k + width]
  {
    NextGroup(width, k, |s|);
    SliceOfSuffix(s, width, width * (k - 1), width * (k - 1) + width);
  }

  /** A successful decoding is the first group's unit followed by the decoding of the rest. */
  lemma DecodeGroupsFirst(cps: seq<Str>, index: map<Str, nat>, n: nat, width: nat)
    requires width >= 1 && width <= |cps|
    requires forall i :: 0 <= i < |cps| ==> cps[i] in index
    requires |cps| % width == 0
    ensures (|cps| - width) % width == 0
    ensures DecodeGroups(cps[width..], index, n, width).Success?
    ensures DecodeGroups(cps, index, n, width)
         == Success([FromCharCode(Value(Indices(cps[0..width], index), n))]
                    + DecodeGroups(cps[width..], index, n, width).value)
  {
    GroupDigitsSucceed(cps, index, 0, width);
    ModStep(|cps|, width);
    DecodeGroupsSucceed(cps[width..], index, n, width);
    assert Drop(cps, width) == cps[width..];
  }

  /** Unit k of a successful decoding is the positional value of group k's indices,
      taken modulo 2^16. */
  lemma {:induction false} DecodeGroupsUnit(cps: seq<Str>, index: map<Str, nat>, n: nat, width: nat, k: nat)
    requires width >= 1
    requires forall i :: 0 <= i < |cps| ==> cps[i] in index
    requires |cps| % width == 0
    requires width * k + width <= |cps|
    ensures DecodeGroups(cps, index, n, width).Success?
    ensures k < |DecodeGroups(cps, index, n, width).value|
    ensures DecodeGroups(cps, index, n, width).value[k]
         == FromCharCode(Value(Indices(cps[width * k..width * k + width], index), n))
    decreases k
  {
    DecodeGroupsFirst(cps, index, n, width);
    if k == 0 {
      assert cps[width * k..width * k + width] == cps[0..width];
    } else {
      var rest := cps[width..];
      NextGroup(width, k, |cps|);
      DecodeGroupsUnit(rest, index, n, width, k - 1);
      GroupOfRest(cps, width, k);
      var v, tail := DecodeGroups(cps, index, n, width).value, DecodeGroups(rest, index, n, width).value;
      assert |v| == |tail| + 1 && v[k] == tail[k - 1];
    }
  }

  /** A group spelled from digits reads back as those digits when no symbol repeats. */
  lemma GroupOfSpell(ds: seq<nat>, chars: seq<Str>, tail: seq<Str>)
    requires Distinct(chars)
    requires forall k :: 0 <= k < |ds| ==> ds[k] < |chars|
    ensures GroupDigits(Spell(ds, chars) + tail, IndexMap(chars), 0, |ds|) == Success(ds)
  {
    var cps, index := Spell(ds, chars) + tail, IndexMap(chars);
    forall k | 0 <= k < |ds| ensures cps[k] in index && index[cps[k]] == ds[k] {
      assert cps[k] == chars[ds[k]];
    }
    GroupDigitsSucceed(cps, index, 0, |ds|);
    var got := Indices(cps[0..|ds|], index);
    forall k | 0 <= k < |ds| ensures got[k] == ds[k] {
      assert cps[0..|ds|][k] == cps[k];
    }
    assert got == ds;
  }

  /** `width` digits hold a code unit exactly. */
  lemma UnitOfDigits(u: CodeUnit, n: nat, width: nat)
    requires n >= 2 && Pow(n, width) >= CharCodeMax
    ensures FromCharCode(Value(ToDigits(u, n, width), n)) == u
  {
    ValueOfToDigits(u, n, width);
    DivModUnique(u, Pow(n, width), 0, u);
  }

  /** A leading group spelled from `width` digits decodes to the unit they denote. */
  lemma DecodeSpelledGroup(ds: seq<nat>, chars: seq<Str>, tail: seq<Str>)
    requires |ds| >= 1 && Distinct(chars)
    requires forall k :: 0 <= k < |ds| ==> ds[k] < |chars|
    ensures DecodeGroups(Spell(ds, chars) + tail, IndexMap(chars), |chars|, |ds|)
         == Prefixed([FromCharCode(Value(ds, |chars|))], DecodeGroups(tail, IndexMap(chars), |chars|, |ds|))
  {
    var cps := Spell(ds, chars) + tail;
    GroupOfSpell(ds, chars, tail);
    assert Drop(cps, |ds|) == tail;
  }

  /** Decoding the symbols `EncodeUnits` writes gives the code units back, provided the
      alphabet has no repeated symbol and `width` digits hold every code unit. */
  lemma {:induction false} DecodeEncodeUnits(s: seq<CodeUnit>, chars: seq<Str>, width: nat)
    requires |chars| >= 2 && Distinct(chars) && width >= 1
    requires Pow(|chars|, width) >= CharCodeMax
    ensures DecodeGroups(EncodeUnits(s, chars, width), IndexMap(chars), |chars|, width) == Success(s)
    decreases |s|
  {
    if s != [] {
      var n, index := |chars|, IndexMap(chars);
      var ds := ToDigits(s[0], n, width);
      var tail := EncodeUnits(s[1..], chars, width);
      assert |ds| == width;
      assert EncodeUnits(s, chars, width) == Spell(ds, chars) + tail;
      DecodeSpelledGroup(ds, chars, tail);
      UnitOfDigits(s[0], n, width);
      DecodeEncodeUnits(s[1..], chars, width);
      assert DecodeGroups(Spell(ds, chars) + tail, index, n, width) == Success([s[0]] + s[1..]);
      assert [s[0]] + s[1..] == s;
    }
  }

  // ---------------------------------------------------------------------------
  // mapEncode and mapDecode

  /** What `mapEncode(plaintext, alphabet)` returns or throws. */
  function MapEncoded(plaintext: Str, alphabet: Str, encodeURIComponent: Str -> Option<Str>)
    : (r: Result<Str, Error>)
    ensures !ValidAlphabet(alphabet) ==> r == Failure(InvalidAlphabet)
    ensures ValidAlphabet(alphabet) && encodeURIComponent(plaintext).None? ==> r == Failure(UriError)
    ensures ValidAlphabet(alphabet) && encodeURIComponent(plaintext).Some? ==> r.Success?
  {
    match ParseAlphabet(alphabet)
    case Failure(e) => Failure(e)
    case Success(chars) =>
      match encodeURIComponent(plaintext)
      case None => Failure(UriError)
      case Some(s) => Success(Join(EncodeUnits(s, chars, DigitsPerChar(|chars|))))
  }

  lemma EncodeUnitsAt(s: seq<CodeUnit>, i: nat, chars: seq<Str>, width: nat)
    requires |chars| >= 2 && i < |s|
    ensures EncodeUnits(s[i..], chars, width)
         == Spell(ToDigits(s[i], |chars|, width), chars) + EncodeUnits(s[i + 1..], chars, width)
  {
    assert s[i..][1..] == s[i + 1..];
  }

  lemma MoveFront<T>(a: seq<T>, x: T, b: seq<T>, c: seq<T>)
    ensures a + ([x] + b) + c == a + [x] + b + c
  {
  }

  lemma SpellAt(ds: seq<nat>, j: nat, chars: seq<Str>)
    requires j < |ds| && forall k :: 0 <= k < |ds| ==> ds[k] < |chars|
    ensures Spell(ds[j..], chars) == [chars[ds[j]]] + Spell(ds[j + 1..], chars)
  {
  }

  /** The loops of `mapEncode`: every code unit of `s` becomes the symbols of its
      `width` base-`|chars|` digits. */
  method SpellUnits(s: seq<CodeUnit>, chars: seq<Str>, width: nat) returns (out: seq<Str>)
    requires |chars| >= 2 && width >= 1
    ensures out == EncodeUnits(s, chars, width)
  {
    out := [];
    for i := 0 to |s|
      invariant out + EncodeUnits(s[i..], chars, width) == EncodeUnits(s, chars, width)
    {
      var digits := ToBaseN(s[i], |chars|, width);
      EncodeUnitsAt(s, i, chars, width);
      for j := 0 to width
        invariant out + Spell(digits[j..], chars) + EncodeUnits(s[i + 1..], chars, width)
               == EncodeUnits(s, chars, width)
      {
        SpellAt(digits, j, chars);
        MoveFront(out, chars[digits[j]], Spell(digits[j + 1..], chars), EncodeUnits(s[i + 1..], chars, width));
        out := out + [chars[digits[j]]];
      }
    }
    assert s[|s|..] == [];
  }

  /** `mapEncode`: the alphabet is checked first, then the text is percent-encoded and
      every code unit of the result is spelled as `width` alphabet symbols. */
  method MapEncode(plaintext: Str, alphabet: Str, encodeURIComponent: Str -> Option<Str>)
    returns (r: Result<Str, Error>)
    ensures r == MapEncoded(plaintext, alphabet, encodeURIComponent)
  {
    var parsed := ParseAlphabet(alphabet);
    if parsed.Failure? {
      return Failure(parsed.error);
    }
    var chars := parsed.value;
    var width := DigitsPerChar(|chars|);
    var encoded := encodeURIComponent(plaintext);
    if encoded.None? {
      return Failure(UriError);
    }
    var out := SpellUnits(encoded.value, chars, width);
    return Success(Join(out));
  }

  /** The code units `mapDecode` rebuilds from trimmed text whose length check passed,
      then percent-decoded. */
  function DecodeTrimmed(trimmed: Str, chars: seq<Str>, width: nat, decodeURIComponent: Str -> Option<Str>)
    : (r: Result<Str, Error>)
    requires width >= 1
    ensures r.Failure? ==> r.error.InvalidChar? || r.error.UriError?
  {
    match DecodeGroups(CodePoints(trimmed), IndexMap(chars), |chars|, width)
    case Failure(e) => Failure(e)
    case Success(units) =>
      match decodeURIComponent(units)
      case None => Failure(UriError)
      case Some(t) => Success(t)
  }

  /** What `mapDecode(encoded, alphabet)` returns or throws. The length check counts
      UTF-16 code units of the trimmed text, while the groups are read by code point. */
  function MapDecoded(encoded: Str, alphabet: Str, decodeURIComponent: Str -> Option<Str>)
    : (r: Result<Str, Error>)
    ensures !ValidAlphabet(alphabet) ==> r == Failure(InvalidAlphabet)
    ensures ValidAlphabet(alphabet) ==>
              var width := DigitsPerChar(|CodePoints(alphabet)|);
              && (|Trim(encoded)| % width != 0 ==> r == Failure(InvalidLength(width, |Trim(encoded)|)))
              && (|Trim(encoded)| % width == 0 && r.Failure? ==> r.error.InvalidChar? || r.error.UriError?)
  {
    var trimmed := Trim(encoded);
    match ParseAlphabet(alphabet)
    case Failure(e) => Failure(e)
    case Success(chars) =>
      var width := DigitsPerChar(|chars|);
      if |trimmed| % width != 0 then Failure(InvalidLength(width, |trimmed|))
      else DecodeTrimmed(trimmed, chars, width, decodeURIComponent)
  }

  /** `mapDecode` with its length check counting code points, the unit it reads groups in. */
  function MapDecodedByCodePoints(encoded: Str, alphabet: Str, decodeURIComponent: Str -> Option<Str>)
    : (r: Result<Str, Error>)
    ensures !ValidAlphabet(alphabet) ==> r == Failure(InvalidAlphabet)
    ensures ValidAlphabet(alphabet) ==>
              var width, count := DigitsPerChar(|CodePoints(alphabet)|), |CodePoints(Trim(encoded))|;
              && (count % width != 0 ==> r == Failure(InvalidLength(width, count)))
              && (count % width == 0 && r.Failure? ==> r.error.InvalidChar? || r.error.UriError?)
  {
    var trimmed := Trim(encoded);
    match ParseAlphabet(alphabet)
    case Failure(e) => Failure(e)
    case Success(chars) =>
      var width := DigitsPerChar(|chars|);
      var count := |CodePoints(trimmed)|;
      if count % width != 0 then Failure(InvalidLength(width, count))
      else DecodeTrimmed(trimmed, chars, width, decodeURIComponent)
  }

  /** The `charToIndex` loop of `mapDecode`: each symbol is set to its position, a later
      duplicate overwriting an earlier one. */
  method IndexAlphabet(chars: seq<Str>) returns (charToIndex: map<Str, nat>)
    ensures charToIndex == IndexMap(chars)
  {
    charToIndex := map[];
    for k := 0 to |chars|
      invariant charToIndex == IndexMap(chars[..k])
    {
      assert chars[..k + 1][..k] == chars[..k];
      charToIndex := charToIndex[chars[k] := k];
    }
    assert chars[..|chars|] == chars;
  }

  /** The inner loop of `mapDecode`: the digits of the group starting at code point `i`,
      or `INVALID_CHAR` for its first symbol without an index. */
  method ReadGroup(codePoints: seq<Str>, i: nat, charToIndex: map<Str, nat>, width: nat)
    returns (r: Result<seq<nat>, Error>)
    ensures r == GroupDigits(Drop(codePoints, i), charToIndex, 0, width)
  {
    ghost var group := Drop(codePoints, i);
    var digits: seq<nat> := [];
    PrefixedNil(GroupDigits(group, charToIndex, 0, width));
    for j := 0 to width
      invariant GroupDigits(group, charToIndex, 0, width)
             == Prefixed(digits, GroupDigits(group, charToIndex, j, width))
    {
      var ch := At(codePoints, i + j);
      assert At(group, j) == ch;
      if KeyOf(ch) !in charToIndex {
        return Failure(InvalidChar(ch));
      }
      PrefixedPrefixed(digits, [charToIndex[KeyOf(ch)]], GroupDigits(group, charToIndex, j + 1, width));
      digits := digits + [charToIndex[KeyOf(ch)]];
    }
    assert digits + [] == digits;
    return Success(digits);
  }

  /** One step of the outer loop: the first group's failure, or its unit before the rest. */
  lemma DecodeGroupsStep(cps: seq<Str>, index: map<Str, nat>, n: nat, width: nat)
    requires width >= 1 && cps != []
    ensures var g := GroupDigits(cps, index, 0, width);
      && (g.Failure? ==> DecodeGroups(cps, index, n, width) == Failure(g.error))
      && (g.Success? ==> DecodeGroups(cps, index, n, width)
                         == Prefixed([FromCharCode(Value(g.value, n))], DecodeGroups(Drop(cps, width), index, n, width)))
  {
  }

  /** The outer loop of `mapDecode`: one code unit per group of `width` code points. */
  method ReadGroups(codePoints: seq<Str>, charToIndex: map<Str, nat>, n: nat, width: nat)
    returns (r: Result<seq<CodeUnit>, Error>)
    requires width >= 1
    ensures r == DecodeGroups(codePoints, charToIndex, n, width)
  {
    var decoded: seq<CodeUnit> := [];
    var i: nat := 0;
    assert Drop(codePoints, 0) == codePoints;
    PrefixedNil(DecodeGroups(codePoints, charToIndex, n, width));
    while i < |codePoints|
      invariant DecodeGroups(codePoints, charToIndex, n, width)
             == Prefixed(decoded, DecodeGroups(Drop(codePoints, i), charToIndex, n, width))
      decreases |codePoints| - i
    {
      var digits := ReadGroup(codePoints, i, charToIndex, width);
      DecodeGroupsStep(Drop(codePoints, i), charToIndex, n, width);
      if digits.Failure? {
        return Failure(digits.error);
      }
      var charCode := FromBaseN(digits.value, n);
      assert Drop(Drop(codePoints, i), width) == Drop(codePoints, i + width);
      PrefixedPrefixed(decoded, [FromCharCode(charCode)],
        DecodeGroups(Drop(codePoints, i + width), charToIndex, n, width));
      decoded := decoded + [FromCharCode(charCode)];
      i := i + width;
    }
    assert decoded + [] == decoded;
    return Success(decoded);
  }

  /** `mapDecode`: trim, check the alphabet, check the length, index the alphabet, read
      the code points in groups of `width`, then percent-decode. */
  method MapDecode(encoded: Str, alphabet: Str, decodeURIComponent: Str -> Option<Str>)
    returns (r: Result<Str, Error>)
    ensures r == MapDecoded(encoded, alphabet, decodeURIComponent)
  {
    var trimmed := Trim(encoded);
    var parsed := ParseAlphabet(alphabet);
    if parsed.Failure? {
      return Failure(parsed.error);
    }
    var chars := parsed.value;
    var n := |chars|;
    var width := DigitsPerChar(n);
    if |trimmed| % width != 0 {
      return Failure(InvalidLength(width, |trimmed|));
    }
    var charToIndex := IndexAlphabet(chars);
    var decoded := ReadGroups(CodePoints(trimmed), charToIndex, n, width);
    if decoded.Failure? {
      return Failure(decoded.error);
    }
    var text := decodeURIComponent(decoded.value);
    if text.None? {
      return Failure(UriError);
    }
    return Success(text.value);
  }

  /** The symbol keys of an alphabet never include the empty string `mapDecode` looks up
      for a missing position. */
  lemma EmptyKeyUnknown(chars: seq<Str>)
    requires forall k :: 0 <= k < |chars| ==> |chars[k]| >= 1
    ensures [] !in IndexMap(chars)
  {
  }

  /** Once the alphabet and the length check pass, `mapDecode` fails with `INVALID_CHAR`
      naming the first code point outside the alphabet, or nothing (`undefined`) when every
      code point is known but the last group is short. */
  lemma MapDecodedInvalidChar(encoded: Str, alphabet: Str, decodeURIComponent: Str -> Option<Str>, p: nat)
    requires ValidAlphabet(alphabet)
    requires |Trim(encoded)| % DigitsPerChar(|CodePoints(alphabet)|) == 0
    requires p <= |CodePoints(Trim(encoded))|
    requires forall k :: 0 <= k < p ==> CodePoints(Trim(encoded))[k] in CodePoints(alphabet)
    requires p < |CodePoints(Trim(encoded))| ==> CodePoints(Trim(encoded))[p] !in CodePoints(alphabet)
    requires || p < |CodePoints(Trim(encoded))|
             || |CodePoints(Trim(encoded))| % DigitsPerChar(|CodePoints(alphabet)|) != 0
    ensures MapDecoded(encoded, alphabet, decodeURIComponent)
         == Failure(InvalidChar(At(CodePoints(Trim(encoded)), p)))
  {
    var chars := CodePoints(alphabet);
    EmptyKeyUnknown(chars);
    DecodeGroupsFail(CodePoints(Trim(encoded)), IndexMap(chars), |chars|, DigitsPerChar(|chars|), p);
  }

  /** A group read entirely inside the code points names the symbol it fails on. */
  lemma {:induction false} GroupDigitsNamesSymbol(cps: seq<Str>, index: map<Str, nat>, j: nat, width: nat)
    requires width <= |cps|
    ensures GroupDigits(cps, index, j, width).Failure? ==>
              GroupDigits(cps, index, j, width).error.InvalidChar?
              && GroupDigits(cps, index, j, width).error.ch.Some?
    decreases width - j
  {
    if j < width {
      GroupDigitsNamesSymbol(cps, index, j + 1, width);
    }
  }

  /** Groups read in whole from code points whose count is a multiple of `width` never
      fail on a missing position. */
  lemma {:induction false} DecodeGroupsNamesSymbol(cps: seq<Str>, index: map<Str, nat>, n: nat, width: nat)
    requires width >= 1 && |cps| % width == 0
    ensures DecodeGroups(cps, index, n, width).Failure? ==>
              DecodeGroups(cps, index, n, width).error.InvalidChar?
              && DecodeGroups(cps, index, n, width).error.ch.Some?
    decreases |cps|
  {
    if cps != [] {
      if |cps| < width {
        DivModUnique(|cps|, width, 0, |cps|);
      }
      GroupDigitsNamesSymbol(cps, index, 0, width);
      ModStep(|cps|, width);
      assert Drop(cps, width) == cps[width..];
      DecodeGroupsNamesSymbol(cps[width..], index, n, width);
    }
  }

  /** Text whose code points come in whole groups never fails on a missing position. */
  lemma DecodeTrimmedNamesSymbol(trimmed: Str, chars: seq<Str>, width: nat,
                                 decodeURIComponent: Str -> Option<Str>)
    requires width >= 1 && |CodePoints(trimmed)| % width == 0
    ensures var r := DecodeTrimmed(trimmed, chars, width, decodeURIComponent);
      r.Failure? && r.error.InvalidChar? ==> r.error.ch.Some?
  {
    DecodeGroupsNamesSymbol(CodePoints(trimmed), IndexMap(chars), |chars|, width);
  }

  /** With the corrected length check an `INVALID_CHAR` always names a symbol. */
  lemma ByCodePointsNamesSymbol(encoded: Str, alphabet: Str, decodeURIComponent: Str -> Option<Str>)
    ensures var r := MapDecodedByCodePoints(encoded, alphabet, decodeURIComponent);
      r.Failure? && r.error.InvalidChar? ==> r.error.ch.Some?
  {
    var trimmed := Trim(encoded);
    var parsed := ParseAlphabet(alphabet);
    if parsed.Success? {
      var chars := parsed.value;
      var width := DigitsPerChar(|chars|);
      if |CodePoints(trimmed)| % width == 0 {
        DecodeTrimmedNamesSymbol(trimmed, chars, width, decodeURIComponent);
      }
    }
  }

  // ---------------------------------------------------------------------------
  // Round trips

  /** Every symbol of the alphabet is one Unicode scalar value and not white space. */
  predicate PlainSymbols(alphabet: Str) {
    forall c :: c in CodePoints(alphabet) ==> IsScalar(c) && NoWhiteSpace(c)
  }

  /** Every symbol of the alphabet is a single UTF-16 code unit. */
  predicate SingleUnitSymbols(alphabet: Str) {
    forall c :: c in CodePoints(alphabet) ==> |c| == 1
  }

  lemma MulMod(k: nat, w: nat)
    requires w >= 1
    ensures (w * k) % w == 0
  {
    DivModUnique(w * k, w, k, 0);
  }

  /** The output of `mapEncode` is the symbols of `EncodeUnits`, and it reads back as
      them: trimming leaves it alone and its code points are those symbols. */
  lemma EncodedSymbols(plaintext: Str, alphabet: Str, encodeURIComponent: Str -> Option<Str>)
    requires ValidAlphabet(alphabet) && PlainSymbols(alphabet)
    requires encodeURIComponent(plaintext).Some?
    ensures MapEncoded(plaintext, alphabet, encodeURIComponent).Success?
    ensures
      var chars := CodePoints(alphabet);
      var symbols := EncodeUnits(encodeURIComponent(plaintext).value, chars, DigitsPerChar(|chars|));
      var out := MapEncoded(plaintext, alphabet, encodeURIComponent).value;
      Trim(out) == out && CodePoints(out) == symbols
  {
    var chars := CodePoints(alphabet);
    var symbols := EncodeUnits(encodeURIComponent(plaintext).value, chars, DigitsPerChar(|chars|));
    JoinNoWhiteSpace(symbols);
    CodePointsOfJoin(symbols);
  }

  /** `mapDecode(mapEncode(p))` as written: the text comes back exactly when the output's
      length in code units is a multiple of `width`, and otherwise `INVALID_LENGTH` is
      thrown. `decodeURIComponent` is assumed to undo `encodeURIComponent` on `p`. */
  lemma RoundTripAsWritten(plaintext: Str, alphabet: Str,
                           encodeURIComponent: Str -> Option<Str>, decodeURIComponent: Str -> Option<Str>)
    requires ValidAlphabet(alphabet) && PlainSymbols(alphabet)
    requires encodeURIComponent(plaintext).Some?
    requires decodeURIComponent(encodeURIComponent(plaintext).value) == Some(plaintext)
    ensures MapEncoded(plaintext, alphabet, encodeURIComponent).Success?
    ensures
      var out := MapEncoded(plaintext, alphabet, encodeURIComponent).value;
      var width := DigitsPerChar(|CodePoints(alphabet)|);
      MapDecoded(out, alphabet, decodeURIComponent)
        == if |out| % width == 0 then Success(plaintext) else Failure(InvalidLength(width, |out|))
  {
    var chars := CodePoints(alphabet);
    var width := DigitsPerChar(|chars|);
    EncodedSymbols(plaintext, alphabet, encodeURIComponent);
    DecodeEncodeUnits(encodeURIComponent(plaintext).value, chars, width);
  }

  /** With single-unit symbols the length check always passes: the round trip holds. */
  lemma RoundTripSingleUnitSymbols(plaintext: Str, alphabet: Str,
                                   encodeURIComponent: Str -> Option<Str>, decodeURIComponent: Str -> Option<Str>)
    requires ValidAlphabet(alphabet) && PlainSymbols(alphabet) && SingleUnitSymbols(alphabet)
    requires encodeURIComponent(plaintext).Some?
    requires decodeURIComponent(encodeURIComponent(plaintext).value) == Some(plaintext)
    ensures MapDecoded(MapEncoded(plaintext, alphabet, encodeURIComponent).value, alphabet, decodeURIComponent)
         == Success(plaintext)
  {
    var chars := CodePoints(alphabet);
    var width := DigitsPerChar(|chars|);
    var s := encodeURIComponent(plaintext).value;
    var symbols := EncodeUnits(s, chars, width);
    RoundTripAsWritten(plaintext, alphabet, encodeURIComponent, decodeURIComponent);
    JoinOfUnits(symbols);
    MulMod(|s|, width);
  }

  /** The corrected decoder, whose length check counts code points, always gives the
      text back. */
  lemma RoundTripByCodePoints(plaintext: Str, alphabet: Str,
                              encodeURIComponent: Str -> Option<Str>, decodeURIComponent: Str -> Option<Str>)
    requires ValidAlphabet(alphabet) && PlainSymbols(alphabet)
    requires encodeURIComponent(plaintext).Some?
    requires decodeURIComponent(encodeURIComponent(plaintext).value) == Some(plaintext)
    ensures MapEncoded(plaintext, alphabet, encodeURIComponent).Success?
    ensures MapDecodedByCodePoints(MapEncoded(plaintext, alphabet, encodeURIComponent).value, alphabet,
                                   decodeURIComponent)
         == Success(plaintext)
  {
    var chars := CodePoints(alphabet);
    var width := DigitsPerChar(|chars|);
    var s := encodeURIComponent(plaintext).value;
    EncodedSymbols(plaintext, alphabet, encodeURIComponent);
    DecodeEncodeUnits(s, chars, width);
    MulMod(|s|, width);
  }

  lemma {:induction false} ZeroDigits(n: nat, w: nat)
    requires n >= 2
    ensures ToDigits(0, n, w) == seq(w, k => 0)
  {
    if w > 0 {
      ZeroDigits(n, w - 1);
    }
  }

  /** The base-2 digits of `A` (code unit 65) are 1000001. */
  lemma DigitsOfCapitalA()
    ensures ToDigits(0x41, 2, 16) == [0, 0, 0, 0, 0, 0, 0, 0, 0, 1, 0, 0, 0, 0, 0, 1]
  {
    ZeroDigits(2, 9);
    assert ToDigits(1, 2, 10) == ToDigits(0, 2, 9) + [1];
    assert ToDigits(2, 2, 11) == ToDigits(1, 2, 10) + [0];
    assert ToDigits(4, 2, 12) == ToDigits(2, 2, 11) + [0];
    assert ToDigits(8, 2, 13) == ToDigits(4, 2, 12) + [0];
    assert ToDigits(16, 2, 14) == ToDigits(8, 2, 13) + [0];
    assert ToDigits(32, 2, 15) == ToDigits(16, 2, 14) + [0];
    assert ToDigits(0x41, 2, 16) == ToDigits(32, 2, 15) + [1];
  }

  /** `a😀` splits into the symbols `a` and `😀`. */
  lemma AstralCodePoints(alphabet: Str)
    requires alphabet == [0x61, 0xD83D, 0xDE00]
    ensures CodePoints(alphabet) == [[0x61], [0xD83D, 0xDE00]]
  {
    var a, face: Str := [0x61], [0xD83D, 0xDE00];
    var t := alphabet[1..];
    assert t == face && t[..2] == face && t[2..] == [];
    assert CodePoints(t) == [face] + CodePoints([]);
    assert alphabet[..1] == a;
    assert CodePoints(alphabet) == [a] + CodePoints(t);
  }

  /** `a😀` is a valid alphabet of two plain symbols that needs 16 digits per code unit. */
  lemma AstralAlphabet(alphabet: Str)
    requires alphabet == [0x61, 0xD83D, 0xDE00]
    ensures CodePoints(alphabet) == [[0x61], [0xD83D, 0xDE00]]
    ensures ValidAlphabet(alphabet) && PlainSymbols(alphabet)
    ensures DigitsPerChar(|CodePoints(alphabet)|) == 16
  {
    AstralCodePoints(alphabet);
    var chars := CodePoints(alphabet);
    assert IsScalar(chars[0]) && NoWhiteSpace(chars[0]);
    assert IsScalar(chars[1]) && NoWhiteSpace(chars[1]);
    DigitsPerCharExamples();
  }

  /** With that alphabet `A` is spelled by fourteen `a` and two `😀`: 18 code units. */
  lemma AstralSpelling(units: seq<CodeUnit>, chars: seq<Str>)
    requires units == [0x41] && chars == [[0x61], [0xD83D, 0xDE00]]
    ensures |Join(EncodeUnits(units, chars, 16))| == 18
  {
    var a, face := chars[0], chars[1];
    var nine, five := [a, a, a, a, a, a, a, a, a], [a, a, a, a, a];
    AstralSymbols(units, chars);
    JoinAppend(nine + [face] + five, [face]);
    JoinAppend(nine + [face], five);
    JoinAppend(nine, [face]);
    JoinOfUnits(nine);
    JoinOfUnits(five);
    assert Join([face]) == face + Join([]);
  }

  lemma AstralSymbols(units: seq<CodeUnit>, chars: seq<Str>)
    requires units == [0x41] && chars == [[0x61], [0xD83D, 0xDE00]]
    ensures var a, face := chars[0], chars[1];
      EncodeUnits(units, chars, 16) == [a, a, a, a, a, a, a, a, a] + [face] + [a, a, a, a, a] + [face]
  {
    DigitsOfCapitalA();
    assert units[1..] == [];
    assert EncodeUnits(units, chars, 16) == Spell(ToDigits(0x41, 2, 16), chars) + [];
  }

  /** A two-symbol alphabet of `a` and the astral `😀`: `A` encodes to fourteen `a` and
      two `😀`, 18 code units, which the decoder's length check rejects although the 16
      code points it would read are exactly the encoding. */
  lemma AstralAlphabetBreaksRoundTrip(plaintext: Str, alphabet: Str,
                                      encodeURIComponent: Str -> Option<Str>,
                                      decodeURIComponent: Str -> Option<Str>)
    requires plaintext == [0x41] && alphabet == [0x61, 0xD83D, 0xDE00]
    requires encodeURIComponent(plaintext) == Some(plaintext)
    requires decodeURIComponent(plaintext) == Some(plaintext)
    ensures MapEncoded(plaintext, alphabet, encodeURIComponent).Success?
    ensures |MapEncoded(plaintext, alphabet, encodeURIComponent).value| == 18
    ensures MapDecoded(MapEncoded(plaintext, alphabet, encodeURIComponent).value, alphabet, decodeURIComponent)
         == Failure(InvalidLength(16, 18))
  {
    AstralAlphabet(alphabet);
    var chars := CodePoints(alphabet);
    AstralSpelling(plaintext, chars);
    var out := Join(EncodeUnits(plaintext, chars, 16));
    assert MapEncoded(plaintext, alphabet, encodeURIComponent) == Success(out);
    assert |out| == 18;
    RoundTripAsWritten(plaintext, alphabet, encodeURIComponent, decodeURIComponent);
    DivModUnique(|out|, 16, 1, 2);
  }

  /** `01` splits into the symbols `0` and `1`. */
  lemma BinaryCodePoints(alphabet: Str)
    requires alphabet == [0x30, 0x31]
    ensures CodePoints(alphabet) == [[0x30], [0x31]]
  {
    var t := alphabet[1..];
    assert t[..1] == [0x31] && t[1..] == [];
    assert CodePoints(t) == [[0x31]] + CodePoints([]);
    assert alphabet[..1] == [0x30];
    assert CodePoints(alphabet) == [[0x30]] + CodePoints(t);
  }

  /** `01` is a valid alphabet of two single-unit plain symbols, 16 digits per code unit. */
  lemma BinaryAlphabet(alphabet: Str)
    requires alphabet == [0x30, 0x31]
    ensures CodePoints(alphabet) == [[0x30], [0x31]]
    ensures ValidAlphabet(alphabet) && PlainSymbols(alphabet) && SingleUnitSymbols(alphabet)
    ensures DigitsPerChar(|CodePoints(alphabet)|) == 16
  {
    BinaryCodePoints(alphabet);
    var chars := CodePoints(alphabet);
    assert IsScalar(chars[0]) && NoWhiteSpace(chars[0]);
    assert IsScalar(chars[1]) && NoWhiteSpace(chars[1]);
    DigitsPerCharExamples();
  }

  lemma BinarySpelling(units: seq<CodeUnit>, chars: seq<Str>)
    requires units == [0x41] && chars == [[0x30], [0x31]]
    ensures var zero, one := chars[0], chars[1];
      EncodeUnits(units, chars, 16)
        == [zero, zero, zero, zero, zero, zero, zero, zero, zero, one, zero, zero, zero, zero, zero, one]
  {
    DigitsOfCapitalA();
    assert units[1..] == [];
    assert EncodeUnits(units, chars, 16) == Spell(ToDigits(0x41, 2, 16), chars) + [];
  }

  /** With the alphabet `01`, `A` is spelled `0000000001000001`. */
  lemma BinarySymbols(units: seq<CodeUnit>, chars: seq<Str>, out: Str)
    requires units == [0x41] && chars == [[0x30], [0x31]]
    requires out == [0x30, 0x30, 0x30, 0x30, 0x30, 0x30, 0x30, 0x30, 0x30, 0x31, 0x30, 0x30, 0x30, 0x30, 0x30, 0x31]
    ensures Join(EncodeUnits(units, chars, 16)) == out
  {
    BinarySpelling(units, chars);
    BinaryJoin(EncodeUnits(units, chars, 16), chars[0], chars[1], out);
  }

  lemma BinaryJoin(symbols: seq<Str>, zero: Str, one: Str, out: Str)
    requires zero == [0x30] && one == [0x31]
    requires symbols == [zero, zero, zero, zero, zero, zero, zero, zero, zero, one, zero, zero, zero, zero, zero, one]
    requires out == [0x30, 0x30, 0x30, 0x30, 0x30, 0x30, 0x30, 0x30, 0x30, 0x31, 0x30, 0x30, 0x30, 0x30, 0x30, 0x31]
    ensures Join(symbols) == out
  {
    JoinOfUnits(symbols);
    var r := Join(symbols);
    forall k | 0 <= k < |out| ensures r[k] == out[k] {
      assert r[k] == symbols[k][0];
    }
  }

  /** `mapEncode("A", "01")` is `0000000001000001`, and it decodes back to `A`. */
  lemma BinaryExample(plaintext: Str, alphabet: Str, out: Str,
                      encodeURIComponent: Str -> Option<Str>, decodeURIComponent: Str -> Option<Str>)
    requires plaintext == [0x41] && alphabet == [0x30, 0x31]
    requires out == [0x30, 0x30, 0x30, 0x30, 0x30, 0x30, 0x30, 0x30, 0x30, 0x31, 0x30, 0x30, 0x30, 0x30, 0x30, 0x31]
    requires encodeURIComponent(plaintext) == Some(plaintext)
    requires decodeURIComponent(plaintext) == Some(plaintext)
    ensures MapEncoded(plaintext, alphabet, encodeURIComponent) == Success(out)
    ensures MapDecoded(out, alphabet, decodeURIComponent) == Success(plaintext)
  {
    BinaryAlphabet(alphabet);
    var chars := CodePoints(alphabet);
    BinarySymbols(plaintext, chars, out);
    assert MapEncoded(plaintext, alphabet, encodeURIComponent) == Success(Join(EncodeUnits(plaintext, chars, 16)));
    RoundTripSingleUnitSymbols(plaintext, alphabet, encodeURIComponent, decodeURIComponent);
  }

  /** `mapDecode("abc", "01")` fails with `INVALID_LENGTH`: 3 is not a multiple of 16. */
  lemma BinaryRejectsLength(encoded: Str, alphabet: Str, decodeURIComponent: Str -> Option<Str>)
    requires encoded == [0x61, 0x62, 0x63] && alphabet == [0x30, 0x31]
    ensures MapDecoded(encoded, alphabet, decodeURIComponent) == Failure(InvalidLength(16, 3))
  {
    BinaryAlphabet(alphabet);
    assert NoWhiteSpace(encoded);
    DivModUnique(|encoded|, 16, 0, 3);
  }

}
