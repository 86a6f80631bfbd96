/**
 * The few Python `str` operations the scripts rely on, stated over `seq<char>`:
 * `startswith`, `in`, `rstrip(c)`, `strip()`, `split(c)`, `split()` and `int()`.
 * Whitespace is exactly what Python's `str.isspace()` accepts.
 */
module Text {
  import opened Options

  /** Python's `str.isspace()` for one character. */
  predicate IsSpace(c: char) {
    var n := c as int;
    (0x09 <= n <= 0x0D) || (0x1C <= n <= 0x20) || n == 0x85 || n == 0xA0 || n == 0x1680
    || (0x2000 <= n <= 0x200A) || n == 0x2028 || n == 0x2029 || n == 0x202F || n == 0x205F
    || n == 0x3000
  }

  predicate NoSpace(s: string) {
    forall i :: 0 <= i < |s| ==> !IsSpace(s[i])
  }

  /** `s.startswith(p)` */
  predicate StartsWith(s: string, p: string) {
    |p| <= |s| && s[..|p|] == p
  }

  /** `t in s` for strings: some position of `s` starts a copy of `t`. */
  predicate Contains(s: string, t: string)
    decreases |s|
  {
    StartsWith(s, t) || (s != [] && Contains(s[1..], t))
  }

  lemma {:induction false} ContainsAt(s: string, t: string, i: nat)
    requires i + |t| <= |s| && s[i..i + |t|] == t
    ensures Contains(s, t)
    decreases i
  {
    if i > 0 {
      assert s[1..][i - 1..i - 1 + |t|] == s[i..i + |t|];
      ContainsAt(s[1..], t, i - 1);
    }
  }

  /** Text without the first character of `t` holds no copy of `t`. */
  lemma {:induction false} NotContains(s: string, t: string)
    requires t != [] && t[0] !in s
    ensures !Contains(s, t)
    decreases |s|
  {
    if s != [] {
      assert s[0] in s;
      NotContains(s[1..], t);
    }
  }

  /** `s.rstrip(c)`: drop every trailing `c`. */
  function RStrip(s: string, c: char): (r: string)
    ensures r <= s
    ensures r == [] || r[|r| - 1] != c
    ensures forall i :: |r| <= i < |s| ==> s[i] == c
  {
    if s != [] && s[|s| - 1] == c then RStrip(s[..|s| - 1], c) else s
  }

  /** `s.lstrip()` */
  function LStripWs(s: string): string {
    if s != [] && IsSpace(s[0]) then LStripWs(s[1..]) else s
  }

  /** `lstrip()` keeps a suffix, drops only whitespace, and stops at the first other character. */
  lemma {:induction false} LStripWsSpec(s: string)
    ensures |LStripWs(s)| <= |s| && LStripWs(s) == s[|s| - |LStripWs(s)|..]
    ensures LStripWs(s) == [] || !IsSpace(LStripWs(s)[0])
    ensures forall i :: 0 <= i < |s| - |LStripWs(s)| ==> IsSpace(s[i])
  {
    if s != [] && IsSpace(s[0]) {
      var t := s[1..];
      LStripWsSpec(t);
      var r := LStripWs(t);
      assert t[|t| - |r|..] == s[|s| - |r|..];
      forall i | 0 <= i < |s| - |r|
        ensures IsSpace(s[i])
      {
        if i > 0 {
          assert s[i] == t[i - 1];
        }
      }
    }
  }

  /** `s.rstrip()` */
  function RStripWs(s: string): string {
    if s != [] && IsSpace(s[|s| - 1]) then RStripWs(s[..|s| - 1]) else s
  }

  /** `rstrip()` keeps a prefix, drops only whitespace, and stops at the last other character. */
  lemma {:induction false} RStripWsSpec(s: string)
    ensures RStripWs(s) <= s
    ensures RStripWs(s) == [] || !IsSpace(RStripWs(s)[|RStripWs(s)| - 1])
    ensures forall i :: |RStripWs(s)| <= i < |s| ==> IsSpace(s[i])
  {
    if s != [] && IsSpace(s[|s| - 1]) {
      var t := s[..|s| - 1];
      RStripWsSpec(t);
      forall i | |RStripWs(t)| <= i < |s|
        ensures IsSpace(s[i])
      {
        if i < |t| {
          assert s[i] == t[i];
        }
      }
    }
  }

  /** `s.strip()` */
  function Strip(s: string): string {
    RStripWs(LStripWs(s))
  }

  lemma StripNoOp(s: string)
    requires s == [] || (!IsSpace(s[0]) && !IsSpace(s[|s| - 1]))
    ensures Strip(s) == s
  {
  }

  /** `[line.rstrip('\n') for line in f]`: every line of a file, newline stripped, in order. */
  function Chomped(lines: seq<string>): (r: seq<string>)
    ensures |r| == |lines|
  {
    seq(|lines|, i requires 0 <= i < |lines| => RStrip(lines[i], '\n'))
  }

  /** Stripping is idempotent. */
  lemma StripStripped(s: string)
    ensures Strip(Strip(s)) == Strip(s)
  {
    var u := LStripWs(s);
    var t := RStripWs(u);
    LStripWsSpec(s);
    RStripWsSpec(u);
    if t != [] {
      assert t[0] == u[0];
    }
    StripNoOp(t);
  }

  // ---------------------------------------------------------------------------
  // s.split(c)

  /** `s.split(c)` for a one-character separator: never empty, one more piece than separators. */
  function Split(s: string, c: char): (r: seq<string>)
    ensures |r| >= 1
  {
    if s == [] then [""]
    else
      var rest := Split(s[1..], c);
      if s[0] == c then [""] + rest else [[s[0]] + rest[0]] + rest[1..]
  }

  /** `c.join(parts)` */
  function Join(parts: seq<string>, c: char): string {
    if |parts| == 0 then ""
    else if |parts| == 1 then parts[0]
    else parts[0] + [c] + Join(parts[1..], c)
  }

  /** Splitting and re-joining gives back the line: fields never lose or gain text. */
  lemma {:induction false} JoinSplit(s: string, c: char)
    ensures Join(Split(s, c), c) == s
  {
    if s != [] {
      var rest := Split(s[1..], c);
      JoinSplit(s[1..], c);
      if s[0] == c {
        assert Split(s, c)[1..] == rest;
      } else {
        var r := Split(s, c);
        assert r[0] == [s[0]] + rest[0] && r[1..] == rest[1..];
        if |rest| > 1 {
          assert Join(rest, c) == rest[0] + [c] + Join(rest[1..], c);
        }
      }
    }
  }

  lemma {:induction false} SplitPrefix(w: string, r: string, c: char)
    requires c !in w
    ensures Split(w + r, c) == [w + Split(r, c)[0]] + Split(r, c)[1..]
    decreases |w|
  {
    if w != [] {
      assert (w + r)[1..] == w[1..] + r;
      SplitPrefix(w[1..], r, c);
      assert [w[0]] + (w[1..] + Split(r, c)[0]) == w + Split(r, c)[0];
    } else {
      assert w + r == r;
      assert w + Split(r, c)[0] == Split(r, c)[0];
      assert Split(r, c) == [Split(r, c)[0]] + Split(r, c)[1..];
    }
  }

  /** Joining separator-free pieces and splitting again gives back the pieces. */
  lemma {:induction false} SplitJoin(parts: seq<string>, c: char)
    requires |parts| >= 1
    requires forall i :: 0 <= i < |parts| ==> c !in parts[i]
    ensures Split(Join(parts, c), c) == parts
  {
    if |parts| == 1 {
      SplitPrefix(parts[0], "", c);
      assert parts[0] + "" == parts[0];
    } else {
      var tail := Join(parts[1..], c);
      SplitJoin(parts[1..], c);
      assert Join(parts, c) == parts[0] + ([c] + tail);
      SplitPrefix(parts[0], [c] + tail, c);
      assert ([c] + tail)[1..] == tail;
      assert Split([c] + tail, c) == [""] + parts[1..];
      assert parts[0] + "" == parts[0];
      assert [parts[0]] + parts[1..] == parts;
    }
  }

  // ---------------------------------------------------------------------------
  // s.split()

  /** The longest prefix of `s` without whitespace. */
  function TakeWord(s: string): (w: string)
    ensures w <= s && NoSpace(w)
    ensures |w| == |s| || IsSpace(s[|w|])
  {
    if s == [] || IsSpace(s[0]) then [] else [s[0]] + TakeWord(s[1..])
  }

  /** `s.split()`: the maximal runs of non-whitespace, in order. */
  function SplitWs(s: string): seq<string>
    decreases |s|
  {
    if s == [] then []
    else if IsSpace(s[0]) then SplitWs(s[1..])
    else
      var w := TakeWord(s);
      assert |w| >= 1;
      [w] + SplitWs(s[|w|..])
  }

  /** Every field of `s.split()` is a non-empty run without whitespace. */
  lemma {:induction false} SplitWsFields(s: string)
    ensures forall i :: 0 <= i < |SplitWs(s)| ==> SplitWs(s)[i] != [] && NoSpace(SplitWs(s)[i])
    decreases |s|
  {
    if s != [] {
      if IsSpace(s[0]) {
        SplitWsFields(s[1..]);
      } else {
        var w := TakeWord(s);
        SplitWsFields(s[|w|..]);
        assert SplitWs(s) == [w] + SplitWs(s[|w|..]);
      }
    }
  }

  /** `sep.join(fields)` for non-empty whitespace-free fields and a whitespace separator. */
  lemma {:induction false} SplitWsJoin(fields: seq<string>, sep: char)
    requires IsSpace(sep)
    requires forall i :: 0 <= i < |fields| ==> fields[i] != [] && NoSpace(fields[i])
    ensures SplitWs(Join(fields, sep)) == fields
  {
    if |fields| == 1 {
      SplitWsWord(fields[0], "");
      assert fields[0] + "" == fields[0];
    } else if |fields| > 1 {
      var tail := Join(fields[1..], sep);
      var rest := [sep] + tail;
      assert Join(fields, sep) == fields[0] + [sep] + tail;
      assert fields[0] + [sep] + tail == fields[0] + rest;
      SplitWsWord(fields[0], rest);
      SplitWsJoin(fields[1..], sep);
      assert rest[1..] == tail;
      assert [fields[0]] + fields[1..] == fields;
    }
  }

  /** A word followed by whitespace or nothing is the first field. */
  lemma SplitWsWord(w: string, rest: string)
    requires w != [] && NoSpace(w)
    requires rest == [] || IsSpace(rest[0])
    ensures SplitWs(w + rest) == [w] + SplitWs(rest)
  {
    TakeWordOf(w, rest);
    assert (w + rest)[0] == w[0];
    assert (w + rest)[|w|..] == rest;
  }

  lemma {:induction false} TakeWordOf(w: string, rest: string)
    requires NoSpace(w)
    requires rest == [] || IsSpace(rest[0])
    ensures TakeWord(w + rest) == w
    decreases |w|
  {
    if w != [] {
      assert (w + rest)[1..] == w[1..] + rest;
      TakeWordOf(w[1..], rest);
    } else {
      assert w + rest == rest;
    }
  }

  // ---------------------------------------------------------------------------
  // int(s) and str(n)

  predicate IsDigit(c: char) {
    '0' <= c <= '9'
  }

  predicate AllDigits(s: string) {
    forall i :: 0 <= i < |s| ==> IsDigit(s[i])
  }

  function DigitsValue(ds: string): nat
    requires AllDigits(ds)
  {
    if ds == [] then 0 else DigitsValue(ds[..|ds| - 1]) * 10 + (ds[|ds| - 1] as int - '0' as int)
  }

  /**
   * Python's `int(s)` on a string: surrounding whitespace is ignored, then an optional sign and
   * at least one decimal digit; anything else is a ValueError, modelled as None.
   */
  function ParseInt(s: string): Option<int> {
    var t := Strip(s);
    var signed := |t| > 0 && (t[0] == '-' || t[0] == '+');
    var body := if signed then t[1..] else t;
    if body != [] && AllDigits(body) then
      Some(if signed && t[0] == '-' then 0 - DigitsValue(body) else DigitsValue(body))
    else None
  }

  function ShowNat(n: nat): (s: string)
    ensures s != [] && AllDigits(s)
  {
    if n < 10 then [('0' as int + n) as char]
    else ShowNat(n / 10) + [('0' as int + n % 10) as char]
  }

  /** `str(n)` */
  function ShowInt(n: int): string {
    if n < 0 then "-" + ShowNat(-n) else ShowNat(n)
  }

  lemma {:induction false} ShowNatValue(n: nat)
    ensures DigitsValue(ShowNat(n)) == n
  {
    if n >= 10 {
      var s := ShowNat(n);
      assert s[..|s| - 1] == ShowNat(n / 10);
      ShowNatValue(n / 10);
    }
  }

  /** What `str` writes, `int` reads back. */
  lemma ParseShowInt(n: int)
    ensures ParseInt(ShowInt(n)) == Some(n)
  {
    var s := ShowInt(n);
    var d := ShowNat(if n < 0 then -n else n);
    ShowIntNoSpace(n);
    StripNoOp(s);
    ShowNatValue(if n < 0 then -n else n);
    if n < 0 {
      assert s[1..] == d;
    } else {
      assert s == d;
    }
  }

  lemma ShowIntNoSpace(n: int)
    ensures ShowInt(n) != [] && NoSpace(ShowInt(n))
  {
    var s := ShowInt(n);
    forall i | 0 <= i < |s| ensures !IsSpace(s[i]) {
      assert IsDigit(s[i]) || s[i] == '-';
    }
  }

  // ---------------------------------------------------------------------------
  // a < b on strings

  /** Python's `a < b` on strings: code point by code point, a proper prefix first. */
  predicate Less(a: string, b: string)
    decreases |a|
  {
    if a == [] then b != []
    else if b == [] then false
    else if a[0] != b[0] then a[0] < b[0]
    else Less(a[1..], b[1..])
  }

  lemma {:induction false} LessIrreflexive(a: string)
    ensures !Less(a, a)
    decreases |a|
  {
    if a != [] {
      LessIrreflexive(a[1..]);
    }
  }

  lemma {:induction false} LessTransitive(a: string, b: string, c: string)
    requires Less(a, b) && Less(b, c)
    ensures Less(a, c)
    decreases |a|
  {
    if a != [] && a[0] == b[0] && b[0] == c[0] {
      LessTransitive(a[1..], b[1..], c[1..]);
    }
  }

  lemma {:induction false} LessTotal(a: string, b: string)
    requires a != b
    ensures Less(a, b) || Less(b, a)
    decreases |a|
  {
    if a != [] && b != [] && a[0] == b[0] {
      assert a[1..] != b[1..] by {
        assert a == [a[0]] + a[1..] && b == [b[0]] + b[1..];
      }
      LessTotal(a[1..], b[1..]);
    }
  }
}
