/** The parts of JavaScript's string model that the core relies on: a string is a
    sequence of UTF-16 code units; `Array.from` splits it into code points; `trim`,
    `includes`, `join('')` and `String(n)` for a non-negative integer. */
module JsString {

  /** One UTF-16 code unit, the element `charCodeAt` returns. */
  type CodeUnit = u: int | 0 <= u < 0x1_0000

  /** A JavaScript string. */
  type Str = seq<CodeUnit>

  predicate IsHighSurrogate(u: CodeUnit) { 0xD800 <= u <= 0xDBFF }

  predicate IsLowSurrogate(u: CodeUnit) { 0xDC00 <= u <= 0xDFFF }

  /** A string that is exactly one Unicode scalar value: a unit that is not a surrogate,
      or a high surrogate followed by a low one. */
  predicate IsScalar(c: Str) {
    || (|c| == 1 && !IsHighSurrogate(c[0]) && !IsLowSurrogate(c[0]))
    || (|c| == 2 && IsHighSurrogate(c[0]) && IsLowSurrogate(c[1]))
  }

  /** `parts.join('')`: every part in turn, so the result is empty exactly when every
      part is, and it starts with the first part. */
  function Join(parts: seq<Str>): (r: Str)
    ensures parts != [] ==> parts[0] <= r
  {
    if parts == [] then [] else parts[0] + Join(parts[1..])
  }

  lemma {:induction false} JoinAppend(a: seq<Str>, b: seq<Str>)
    ensures Join(a + b) == Join(a) + Join(b)
  {
    if a == [] {
      assert a + b == b;
    } else {
      assert (a + b)[0] == a[0] && (a + b)[1..] == a[1..] + b;
      JoinAppend(a[1..], b);
    }
  }

  /** Joining single-unit strings gives a string of as many units. */
  lemma {:induction false} JoinOfUnits(cs: seq<Str>)
    requires forall k :: 0 <= k < |cs| ==> |cs[k]| == 1
    ensures |Join(cs)| == |cs|
    ensures forall k :: 0 <= k < |cs| ==> Join(cs)[k] == cs[k][0]
  {
    if cs != [] {
      JoinOfUnits(cs[1..]);
      assert Join(cs) == cs[0] + Join(cs[1..]);
    }
  }

  /** `Array.from(s)`: the string iterator yields a surrogate pair as one element and
      every other unit, a lone surrogate included, as an element of its own. */
  function CodePoints(s: Str): (r: seq<Str>)
    ensures Join(r) == s
    ensures |r| <= |s|
    ensures forall k :: 0 <= k < |r| ==> 1 <= |r[k]| <= 2
    ensures forall k :: 0 <= k < |r| && |r[k]| == 2 ==>
              IsHighSurrogate(r[k][0]) && IsLowSurrogate(r[k][1])
    decreases |s|
  {
    if |s| == 0 then []
    else if |s| >= 2 && IsHighSurrogate(s[0]) && IsLowSurrogate(s[1]) then
      [s[..2]] + CodePoints(s[2..])
    else
      [s[..1]] + CodePoints(s[1..])
  }

  /** A surrogate pair is never split: a piece that is a lone high surrogate is not
      followed by a piece starting with a low surrogate. */
  lemma {:induction false} CodePointsKeepsPairs(s: Str)
    ensures var r := CodePoints(s);
      forall k :: 0 <= k < |r| - 1 && |r[k]| == 1 && IsHighSurrogate(r[k][0]) ==>
        !IsLowSurrogate(r[k + 1][0])
    decreases |s|
  {
    var r := CodePoints(s);
    if |s| >= 2 && IsHighSurrogate(s[0]) && IsLowSurrogate(s[1]) {
      CodePointsKeepsPairs(s[2..]);
      assert r == [s[..2]] + CodePoints(s[2..]);
    } else if |s| >= 1 {
      var t := s[1..];
      CodePointsKeepsPairs(t);
      assert r == [s[..1]] + CodePoints(t);
      if |t| > 0 {
        CodePointsHead(t);
      }
    }
  }

  /** The first piece starts with the string's first unit. */
  lemma CodePointsHead(s: Str)
    requires |s| > 0
    ensures |CodePoints(s)| > 0 && CodePoints(s)[0][0] == s[0]
  {
  }

  /** Joining scalar values and splitting the result again gives them back. */
  lemma {:induction false} CodePointsOfJoin(cs: seq<Str>)
    requires forall k :: 0 <= k < |cs| ==> IsScalar(cs[k])
    ensures CodePoints(Join(cs)) == cs
  {
    if cs != [] {
      var s := Join(cs);
      assert s == cs[0] + Join(cs[1..]);
      CodePointsOfJoin(cs[1..]);
      if |cs[0]| == 1 {
        assert s[..1] == cs[0] && s[1..] == Join(cs[1..]);
      } else {
        assert s[..2] == cs[0] && s[2..] == Join(cs[1..]);
      }
    }
  }

  /** The units `String.prototype.trim` removes: WhiteSpace and LineTerminator of
      ECMA-262 (section 12.2 and 12.3 of the 2024 edition), all of them single units. */
  predicate IsWhiteSpace(u: CodeUnit) {
    || u == 0x0009 || u == 0x000A || u == 0x000B || u == 0x000C || u == 0x000D
    || u == 0x0020 || u == 0x00A0 || u == 0x1680 || (0x2000 <= u <= 0x200A)
    || u == 0x2028 || u == 0x2029 || u == 0x202F || u == 0x205F || u == 0x3000
    || u == 0xFEFF
  }

  predicate NoWhiteSpace(s: Str) {
    forall k :: 0 <= k < |s| ==> !IsWhiteSpace(s[k])
  }

  function TrimStart(s: Str): (r: Str)
    ensures |r| <= |s| && r == s[|s| - |r|..]
    ensures forall k :: 0 <= k < |s| - |r| ==> IsWhiteSpace(s[k])
    ensures |r| > 0 ==> !IsWhiteSpace(r[0])
  {
    if |s| > 0 && IsWhiteSpace(s[0]) then TrimStart(s[1..]) else s
  }

  function TrimEnd(s: Str): (r: Str)
    ensures |r| <= |s| && r == s[..|r|]
    ensures forall k :: |r| <= k < |s| ==> IsWhiteSpace(s[k])
    ensures |r| > 0 ==> !IsWhiteSpace(r[|r| - 1])
  {
    if |s| > 0 && IsWhiteSpace(s[|s| - 1]) then TrimEnd(s[..|s| - 1]) else s
  }

  /** `s.trim()`: the longest infix that neither starts nor ends with white space. */
  function Trim(s: Str): (r: Str)
    ensures NoWhiteSpace(s) ==> r == s
    ensures |r| > 0 ==> !IsWhiteSpace(r[0]) && !IsWhiteSpace(r[|r| - 1])
  {
    TrimEnd(TrimStart(s))
  }

  /** Trimming a trimmed string changes nothing. */
  lemma TrimIdempotent(s: Str)
    ensures Trim(Trim(s)) == Trim(s)
  {
    var r := Trim(s);
    if |r| > 0 {
      assert TrimStart(r) == r;
      assert TrimEnd(r) == r;
    }
  }

  /** `hay.includes(needle)`: `needle` starts at some position of `hay`. */
  predicate Includes(hay: Str, needle: Str): (b: bool)
    ensures b <==> exists i :: 0 <= i <= |hay| && needle <= hay[i..]
    decreases |hay|
  {
    if needle <= hay then
      assert hay[0..] == hay;
      true
    else if |hay| == 0 then false
    else
      assert forall i :: 1 <= i <= |hay| ==> hay[i..] == hay[1..][i - 1..];
      Includes(hay[1..], needle)
  }

  lemma {:induction false} JoinNoWhiteSpace(cs: seq<Str>)
    requires forall k :: 0 <= k < |cs| ==> NoWhiteSpace(cs[k])
    ensures NoWhiteSpace(Join(cs))
  {
    if cs != [] {
      JoinNoWhiteSpace(cs[1..]);
      var t := Join(cs[1..]);
      assert Join(cs) == cs[0] + t;
      forall k | 0 <= k < |Join(cs)| ensures !IsWhiteSpace(Join(cs)[k]) {
        if k < |cs[0]| {
          assert Join(cs)[k] == cs[0][k];
        } else {
          assert Join(cs)[k] == t[k - |cs[0]|];
        }
      }
    }
  }

  predicate IsAsciiDigit(u: CodeUnit) { '0' as int <= u <= '9' as int }

  /** The number a string of decimal digits denotes, most significant digit first. */
  function DecimalValue(r: Str): int {
    if r == [] then 0 else DecimalValue(r[..|r| - 1]) * 10 + (r[|r| - 1] - '0' as int)
  }

  /** `String(n)` for a non-negative integer: its decimal numeral without leading zeros. */
  function DecimalString(n: nat): (r: Str)
    ensures |r| >= 1
    ensures n >= 10 <==> |r| >= 2
    ensures forall k :: 0 <= k < |r| ==> IsAsciiDigit(r[k])
    ensures |r| > 1 ==> r[0] != '0' as int
    ensures DecimalValue(r) == n
  {
    if n < 10 then ['0' as int + n]
    else
      var r := DecimalString(n / 10) + ['0' as int + n % 10];
      assert r[..|r| - 1] == DecimalString(n / 10);
      r
  }
}
