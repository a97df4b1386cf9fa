/** The parts of the .NET string library that the runtime-resolution code
    relies on, stated over `string` (a sequence of Unicode scalar values;
    the ASCII patterns used here behave the same on well-formed UTF-16, and
    lone surrogates cannot be represented):
    `String.ToLower`, ordinal `String.Contains`, ordinal all-occurrence
    `String.Replace`, `String.Split(char)`, `Int32.TryParse` and
    `Int32.ToString`. */
module DotNetStrings {
  import opened Wrappers

  const Int32Min: int := -0x8000_0000
  const Int32Max: int := 0x7FFF_FFFF

  /** `n` fits in a .NET `int` (System.Int32). */
  predicate InInt32(n: int) {
    Int32Min <= n <= Int32Max
  }

  // ---------------------------------------------------------------------
  // Lowercasing (ASCII letters only)
  // ---------------------------------------------------------------------

  predicate IsAsciiUpper(c: char) {
    'A' <= c <= 'Z'
  }

  /** A capital letter becomes the small letter at the same place in the
      alphabet; every other character is kept. */
  function LowerChar(c: char): (l: char)
    ensures !IsAsciiUpper(l)
    ensures IsAsciiUpper(c) ==> 'a' <= l <= 'z' && l as int - 'a' as int == c as int - 'A' as int
    ensures !IsAsciiUpper(c) ==> l == c
  {
    if IsAsciiUpper(c) then (c as int + 32) as char else c
  }

  /** `String.ToLower`, restricted to the ASCII letters. */
  function ToLower(s: string): (r: string)
    ensures |r| == |s|
    ensures forall i :: 0 <= i < |r| ==> !IsAsciiUpper(r[i])
    ensures forall i :: 0 <= i < |s| && IsAsciiUpper(s[i]) ==> r[i] as int == s[i] as int + 32
    ensures forall i :: 0 <= i < |s| && !IsAsciiUpper(s[i]) ==> r[i] == s[i]
  {
    seq(|s|, i requires 0 <= i < |s| => LowerChar(s[i]))
  }

  /** The characters that lowercase to a small letter `x` are `x` itself and
      its capital. */
  lemma LowerCharToSmall(c: char, x: char)
    requires 'a' <= x <= 'z'
    ensures LowerChar(c) == x <==> c == x || c as int == x as int - 32
  {
  }

  /** Lowercasing a slice is slicing the lowercased text. */
  lemma ToLowerSlice(s: string, i: nat, j: nat)
    requires i <= j <= |s|
    ensures ToLower(s)[i..j] == ToLower(s[i..j])
  {
  }

  // ---------------------------------------------------------------------
  // Ordinal search
  // ---------------------------------------------------------------------

  /** `pattern` starts at index `i` of `s`. */
  predicate OccursAt(s: string, pattern: string, i: nat) {
    i + |pattern| <= |s| && s[i..i + |pattern|] == pattern
  }

  /** Ordinal `String.Contains`: scan `s` left to right for `pattern`. */
  function Contains(s: string, pattern: string): bool
    decreases |s|
  {
    if pattern <= s then true
    else if s == [] then false
    else Contains(s[1..], pattern)
  }

  /** The scan finds `pattern` exactly when it occurs at some index. */
  lemma {:induction false} ContainsIsOccurrence(s: string, pattern: string)
    ensures Contains(s, pattern) <==> exists i: nat :: OccursAt(s, pattern, i)
    decreases |s|
  {
    if pattern <= s {
      assert OccursAt(s, pattern, 0);
    } else if s == [] {
      forall i: nat ensures !OccursAt(s, pattern, i) {
      }
    } else {
      ContainsIsOccurrence(s[1..], pattern);
      if Contains(s, pattern) {
        var k: nat :| OccursAt(s[1..], pattern, k);
        assert s[1..][k..k + |pattern|] == s[k + 1..k + 1 + |pattern|];
        assert OccursAt(s, pattern, k + 1);
      } else {
        forall i: nat ensures !OccursAt(s, pattern, i) {
          if i == 0 {
            if |pattern| <= |s| {
              assert s[..|pattern|] != pattern;
            }
          } else if i + |pattern| <= |s| {
            assert s[1..][i - 1..i - 1 + |pattern|] == s[i..i + |pattern|];
            assert !OccursAt(s[1..], pattern, i - 1);
          }
        }
      }
    }
  }

  /** A prefix of `a + b` is a prefix of `a`, or it is longer than `a` and
      agrees with `a + b` on both sides of the boundary. */
  lemma PrefixOfConcat(p: string, a: string, b: string)
    ensures p <= a + b && |p| <= |a| ==> p <= a
    ensures p <= a + b && |p| > |a| > 0 ==> p[|a| - 1] == a[|a| - 1]
    ensures p <= a + b && |p| > |a| ==> p[|a|] == b[0]
  {
  }

  /** A character that is not part of `pattern` cannot complete an occurrence. */
  lemma {:induction false} ContainsAppendChar(s: string, c: char, pattern: string)
    requires pattern != [] && c !in pattern
    ensures Contains(s + [c], pattern) == Contains(s, pattern)
    decreases |s|
  {
    PrefixOfConcat(pattern, s, [c]);
    if pattern <= s + [c] {
      assert pattern <= s;
    } else if s == [] {
      assert ([c])[1..] == [];
    } else {
      assert !(pattern <= s);
      assert (s + [c])[1..] == s[1..] + [c];
      ContainsAppendChar(s[1..], c, pattern);
    }
  }

  // ---------------------------------------------------------------------
  // Replace
  // ---------------------------------------------------------------------

  /** Ordinal `String.Replace(oldValue, newValue)`: every non-overlapping
      occurrence of `oldValue`, taken left to right, is replaced by
      `newValue`; the replacement text is not scanned again.  .NET throws
      on an empty `oldValue`; every call in the model passes a constant. */
  function Replace(s: string, oldValue: string, newValue: string): (r: string)
    requires oldValue != []
    decreases |s|
  {
    if |s| < |oldValue| then s
    else if oldValue <= s then newValue + Replace(s[|oldValue|..], oldValue, newValue)
    else [s[0]] + Replace(s[1..], oldValue, newValue)
  }

  /** Text in which `oldValue` does not occur comes back unchanged. */
  lemma {:induction false} ReplaceAbsent(s: string, oldValue: string, newValue: string)
    requires oldValue != [] && !Contains(s, oldValue)
    ensures Replace(s, oldValue, newValue) == s
    decreases |s|
  {
    if |oldValue| <= |s| {
      ReplacePastMismatch(s, oldValue, newValue);
      ReplaceAbsent(s[1..], oldValue, newValue);
    }
  }

  /** Text shorter than `oldValue` is left alone. */
  lemma ReplaceShort(s: string, oldValue: string, newValue: string)
    requires oldValue != [] && |s| < |oldValue|
    ensures Replace(s, oldValue, newValue) == s
  {
  }

  /** An occurrence at the start is replaced, and the scan resumes after it. */
  lemma ReplaceLeading(oldValue: string, rest: string, newValue: string)
    requires oldValue != []
    ensures Replace(oldValue + rest, oldValue, newValue) == newValue + Replace(rest, oldValue, newValue)
  {
    assert (oldValue + rest)[|oldValue|..] == rest;
  }

  /** After a text that ends in a character `oldValue` does not contain,
      a piece shorter than `oldValue` is copied unchanged. */
  lemma ReplaceAppendShort(x: string, piece: string, oldValue: string, newValue: string)
    requires oldValue != [] && |piece| < |oldValue|
    requires x == [] || x[|x| - 1] !in oldValue
    ensures Replace(x + piece, oldValue, newValue) == Replace(x, oldValue, newValue) + piece
  {
    ReplaceConcat(x, piece, oldValue, newValue);
    ReplaceShort(piece, oldValue, newValue);
  }

  /** After such a text, an occurrence followed by a short tail becomes
      `newValue` followed by the tail. */
  lemma ReplaceAppendMatch(x: string, oldValue: string, newValue: string, tail: string)
    requires oldValue != [] && |tail| < |oldValue|
    requires x == [] || x[|x| - 1] !in oldValue
    ensures Replace(x + (oldValue + tail), oldValue, newValue) == Replace(x, oldValue, newValue) + (newValue + tail)
  {
    ReplaceConcat(x, oldValue + tail, oldValue, newValue);
    ReplaceLeading(oldValue, tail, newValue);
    ReplaceShort(tail, oldValue, newValue);
  }

  /** When `a` ends in a character that `oldValue` does not contain, no
      occurrence straddles the boundary, so `a` and `b` are rewritten apart. */
  lemma {:induction false} ReplaceConcat(a: string, b: string, oldValue: string, newValue: string)
    requires oldValue != []
    requires a == [] || a[|a| - 1] !in oldValue
    ensures Replace(a + b, oldValue, newValue) == Replace(a, oldValue, newValue) + Replace(b, oldValue, newValue)
    decreases |a|
  {
    if a == [] {
      assert a + b == b;
    } else if |oldValue| <= |a| && oldValue <= a {
      ReplaceConcat(a[|oldValue|..], b, oldValue, newValue);
      ReplaceConcatAtMatch(a, b, oldValue, newValue);
    } else if |a + b| < |oldValue| {
      ReplaceShort(a + b, oldValue, newValue);
      ReplaceShort(a, oldValue, newValue);
      ReplaceShort(b, oldValue, newValue);
    } else {
      ReplaceConcat(a[1..], b, oldValue, newValue);
      ReplaceConcatPastMismatch(a, b, oldValue, newValue);
    }
  }

  /** The step of `ReplaceConcat` where `a` starts with an occurrence. */
  lemma ReplaceConcatAtMatch(a: string, b: string, oldValue: string, newValue: string)
    requires oldValue != [] && |oldValue| <= |a| && oldValue <= a
    requires Replace(a[|oldValue|..] + b, oldValue, newValue)
          == Replace(a[|oldValue|..], oldValue, newValue) + Replace(b, oldValue, newValue)
    ensures Replace(a + b, oldValue, newValue) == Replace(a, oldValue, newValue) + Replace(b, oldValue, newValue)
  {
    ReplaceAtMatch(a + b, oldValue, newValue);
    ReplaceAtMatch(a, oldValue, newValue);
    assert (a + b)[|oldValue|..] == a[|oldValue|..] + b;
  }

  /** An occurrence at the front of `a + b` would lie inside `a`, since the
      last character of `a` is not part of it. */
  lemma NoOccurrenceAcross(a: string, b: string, oldValue: string)
    requires a != [] && a[|a| - 1] !in oldValue
    requires !(|oldValue| <= |a| && oldValue <= a)
    ensures !(oldValue <= a + b)
  {
    PrefixOfConcat(oldValue, a, b);
  }

  /** The step of `ReplaceConcat` where no occurrence starts at the front. */
  lemma ReplaceConcatPastMismatch(a: string, b: string, oldValue: string, newValue: string)
    requires oldValue != [] && a != [] && a[|a| - 1] !in oldValue
    requires |oldValue| <= |a + b| && !(|oldValue| <= |a| && oldValue <= a)
    requires Replace(a[1..] + b, oldValue, newValue) == Replace(a[1..], oldValue, newValue) + Replace(b, oldValue, newValue)
    ensures Replace(a + b, oldValue, newValue) == Replace(a, oldValue, newValue) + Replace(b, oldValue, newValue)
  {
    ReplaceConcatFront(a, b, oldValue, newValue);
    ReplaceFront(a, oldValue, newValue);
    ConcatAssociates([a[0]], Replace(a[1..], oldValue, newValue), Replace(b, oldValue, newValue));
  }

  /** With no occurrence at the front of `a + b`, its first character is
      copied and the scan goes on in `a[1..] + b`. */
  lemma ReplaceConcatFront(a: string, b: string, oldValue: string, newValue: string)
    requires oldValue != [] && a != [] && a[|a| - 1] !in oldValue
    requires |oldValue| <= |a + b| && !(|oldValue| <= |a| && oldValue <= a)
    ensures Replace(a + b, oldValue, newValue) == [a[0]] + Replace(a[1..] + b, oldValue, newValue)
  {
    NoOccurrenceAcross(a, b, oldValue);
    ReplacePastMismatch(a + b, oldValue, newValue);
    assert (a + b)[1..] == a[1..] + b;
  }

  /** With no occurrence at the front of `a`, its first character is copied,
      whether `a` is long enough for the pattern or not. */
  lemma ReplaceFront(a: string, oldValue: string, newValue: string)
    requires oldValue != [] && a != [] && !(|oldValue| <= |a| && oldValue <= a)
    ensures Replace(a, oldValue, newValue) == [a[0]] + Replace(a[1..], oldValue, newValue)
  {
    if |a| < |oldValue| {
      ReplaceShort(a, oldValue, newValue);
      ReplaceShort(a[1..], oldValue, newValue);
      assert [a[0]] + a[1..] == a;
    } else {
      ReplacePastMismatch(a, oldValue, newValue);
    }
  }

  lemma ConcatAssociates<T>(x: seq<T>, y: seq<T>, z: seq<T>)
    ensures x + (y + z) == x + y + z
  {
  }

  /** One step of the scan at an occurrence. */
  lemma ReplaceAtMatch(s: string, oldValue: string, newValue: string)
    requires oldValue != [] && oldValue <= s
    ensures Replace(s, oldValue, newValue) == newValue + Replace(s[|oldValue|..], oldValue, newValue)
  {
  }

  /** One step of the scan where no occurrence starts. */
  lemma ReplacePastMismatch(s: string, oldValue: string, newValue: string)
    requires oldValue != [] && |oldValue| <= |s| && !(oldValue <= s)
    ensures Replace(s, oldValue, newValue) == [s[0]] + Replace(s[1..], oldValue, newValue)
  {
  }

  // ---------------------------------------------------------------------
  // Split and Join on one character
  // ---------------------------------------------------------------------

  /** Number of times `c` occurs in `s`. */
  function Count(s: string, c: char): nat
    decreases |s|
  {
    if s == [] then 0 else (if s[0] == c then 1 else 0) + Count(s[1..], c)
  }

  /** `String.Split(separator)`: the pieces between separators, empty pieces
      kept, so there is always one piece more than there are separators. */
  function Split(s: string, separator: char): (parts: seq<string>)
    ensures |parts| == Count(s, separator) + 1
    ensures forall i :: 0 <= i < |parts| ==> separator !in parts[i]
    decreases |s|
  {
    if s == [] then [[]]
    else
      var rest := Split(s[1..], separator);
      if s[0] == separator then [[]] + rest
      else [[s[0]] + rest[0]] + rest[1..]
  }

  /** `String.Join(separator, parts)`. */
  function Join(parts: seq<string>, separator: char): string
    decreases |parts|
  {
    if |parts| == 0 then []
    else if |parts| == 1 then parts[0]
    else parts[0] + [separator] + Join(parts[1..], separator)
  }

  /** Joining the pieces of a split gives back the text. */
  lemma {:induction false} JoinSplit(s: string, separator: char)
    ensures Join(Split(s, separator), separator) == s
    decreases |s|
  {
    if s != [] {
      var rest := Split(s[1..], separator);
      JoinSplit(s[1..], separator);
      if s[0] == separator {
        assert ([[]] + rest)[1..] == rest;
      } else if |rest| > 1 {
        assert ([[s[0]] + rest[0]] + rest[1..])[1..] == rest[1..];
      }
    }
  }

  /** Splitting after a separator-free first piece. */
  lemma {:induction false} SplitAfterPiece(p: string, t: string, separator: char)
    requires separator !in p
    ensures Split(p + [separator] + t, separator) == [p] + Split(t, separator)
    decreases |p|
  {
    var s := p + [separator] + t;
    if p == [] {
      assert s[1..] == t;
    } else {
      assert s[1..] == p[1..] + [separator] + t;
      SplitAfterPiece(p[1..], t, separator);
      assert [p[0]] + p[1..] == p;
    }
  }

  /** A separator-free text is a single piece. */
  lemma {:induction false} SplitWithoutSeparator(p: string, separator: char)
    requires separator !in p
    ensures Split(p, separator) == [p]
    decreases |p|
  {
    if p != [] {
      SplitWithoutSeparator(p[1..], separator);
      assert [p[0]] + p[1..] == p;
    }
  }

  /** Splitting a join of separator-free pieces gives back the pieces. */
  lemma {:induction false} SplitJoin(parts: seq<string>, separator: char)
    requires |parts| >= 1
    requires forall i :: 0 <= i < |parts| ==> separator !in parts[i]
    ensures Split(Join(parts, separator), separator) == parts
    decreases |parts|
  {
    if |parts| == 1 {
      SplitWithoutSeparator(parts[0], separator);
    } else {
      SplitAfterPiece(parts[0], Join(parts[1..], separator), separator);
      SplitJoin(parts[1..], separator);
      assert [parts[0]] + parts[1..] == parts;
    }
  }

  // ---------------------------------------------------------------------
  // Int32.TryParse with NumberStyles.Integer, and Int32.ToString
  // ---------------------------------------------------------------------

  /** The white space that NumberStyles.AllowLeadingWhite and
      AllowTrailingWhite skip: U+0009 to U+000D and U+0020. */
  predicate IsWhiteSpace(c: char) {
    c == ' ' || '\t' <= c <= '\r'
  }

  function TrimStart(s: string): string
    decreases |s|
  {
    if s != [] && IsWhiteSpace(s[0]) then TrimStart(s[1..]) else s
  }

  function TrimEnd(s: string): string
    decreases |s|
  {
    if s != [] && IsWhiteSpace(s[|s| - 1]) then TrimEnd(s[..|s| - 1]) else s
  }

  predicate IsDigit(c: char) {
    '0' <= c <= '9'
  }

  predicate AllDigits(s: string) {
    forall i :: 0 <= i < |s| ==> IsDigit(s[i])
  }

  function DigitValue(c: char): nat
    requires IsDigit(c)
  {
    c as int - '0' as int
  }

  function DigitChar(d: nat): (c: char)
    requires d < 10
    ensures IsDigit(c) && DigitValue(c) == d
  {
    ('0' as int + d) as char
  }

  /** The value of a string of decimal digits, most significant first. */
  function DigitsValue(ds: string): nat
    requires AllDigits(ds)
    decreases |ds|
  {
    if ds == [] then 0 else DigitsValue(ds[..|ds| - 1]) * 10 + DigitValue(ds[|ds| - 1])
  }

  /** `Int32.TryParse(s, out v)`: optional white space, an optional sign,
      one or more decimal digits, optional white space; `None` (TryParse
      returns false) for anything else and for a value outside Int32. */
  function ParseInt32(s: string): (r: Option<int>)
    ensures r.Some? ==> InInt32(r.value)
  {
    var t := TrimEnd(TrimStart(s));
    var unsigned := if t != [] && (t[0] == '+' || t[0] == '-') then t[1..] else t;
    if unsigned == [] || !AllDigits(unsigned) then None
    else
      var magnitude: int := DigitsValue(unsigned);
      var v: int := if t[0] == '-' then -magnitude else magnitude;
      if InInt32(v) then Some(v) else None
  }

  predicate AllWhiteSpace(w: string) {
    forall i :: 0 <= i < |w| ==> IsWhiteSpace(w[i])
  }

  /** The number an optional sign `sign` and the digits `ds` stand for. */
  function SignedValue(sign: string, ds: string): int
    requires AllDigits(ds)
  {
    var m: int := DigitsValue(ds);
    if sign == "-" then -m else m
  }

  /** The text shape that `NumberStyles.Integer` accepts: white space, at most
      one sign, one or more digits, white space. */
  predicate IntegerText(lead: string, sign: string, ds: string, trail: string) {
    && AllWhiteSpace(lead) && AllWhiteSpace(trail)
    && (sign == [] || sign == "+" || sign == "-")
    && ds != [] && AllDigits(ds)
  }

  /** Leading white space is trimmed up to the first other character. */
  lemma {:induction false} TrimStartWhite(w: string, t: string)
    requires AllWhiteSpace(w)
    requires t == [] || !IsWhiteSpace(t[0])
    ensures TrimStart(w + t) == t
    decreases |w|
  {
    if w == [] {
      assert w + t == t;
    } else {
      assert (w + t)[1..] == w[1..] + t;
      TrimStartWhite(w[1..], t);
    }
  }

  /** Trailing white space is trimmed back to the last other character. */
  lemma {:induction false} TrimEndWhite(t: string, w: string)
    requires AllWhiteSpace(w)
    requires t == [] || !IsWhiteSpace(t[|t| - 1])
    ensures TrimEnd(t + w) == t
    decreases |w|
  {
    if w == [] {
      assert t + w == t;
    } else {
      assert (t + w)[..|t + w| - 1] == t + w[..|w| - 1];
      TrimEndWhite(t, w[..|w| - 1]);
    }
  }

  /** `TrimStart` removes a white-space prefix and stops at the first other
      character. */
  lemma {:induction false} TrimStartShape(s: string) returns (k: nat)
    ensures k <= |s| && AllWhiteSpace(s[..k]) && TrimStart(s) == s[k..]
    ensures TrimStart(s) == [] || !IsWhiteSpace(TrimStart(s)[0])
    decreases |s|
  {
    if s != [] && IsWhiteSpace(s[0]) {
      var k1 := TrimStartShape(s[1..]);
      k := k1 + 1;
      assert s[..k] == [s[0]] + s[1..][..k1];
      assert s[k..] == s[1..][k1..];
    } else {
      k := 0;
    }
  }

  /** `TrimEnd` removes a white-space suffix and stops at the last other
      character. */
  lemma {:induction false} TrimEndShape(s: string) returns (j: nat)
    ensures j <= |s| && AllWhiteSpace(s[j..]) && TrimEnd(s) == s[..j]
    ensures TrimEnd(s) == [] || !IsWhiteSpace(TrimEnd(s)[|TrimEnd(s)| - 1])
    decreases |s|
  {
    if s != [] && IsWhiteSpace(s[|s| - 1]) {
      var front := s[..|s| - 1];
      j := TrimEndShape(front);
      assert s[j..] == front[j..] + [s[|s| - 1]];
      assert s[..j] == front[..j];
    } else {
      j := |s|;
    }
  }

  /** Every text of the accepted shape parses to its value when that value
      fits in Int32, and to nothing when it overflows. */
  lemma ParseInt32Text(lead: string, sign: string, ds: string, trail: string)
    requires IntegerText(lead, sign, ds, trail)
    ensures ParseInt32(lead + sign + ds + trail)
      == if InInt32(SignedValue(sign, ds)) then Some(SignedValue(sign, ds)) else None
  {
    var t := sign + ds;
    assert lead + sign + ds + trail == lead + (t + trail);
    TrimStartWhite(lead, t + trail);
    TrimEndWhite(t, trail);
    assert sign != [] ==> t[1..] == ds;
    assert sign == [] ==> t == ds;
  }

  /** Conversely, every text that parses has the accepted shape, and the
      result is its value. */
  lemma ParsedTextShape(s: string)
    requires ParseInt32(s).Some?
    ensures exists lead, sign, ds, trail ::
      (&& IntegerText(lead, sign, ds, trail)
       && s == lead + sign + ds + trail
       && ParseInt32(s) == Some(SignedValue(sign, ds)))
  {
    var lead, sign, ds, trail := SplitIntegerText(s);
    ParseInt32Text(lead, sign, ds, trail);
  }

  /** The white space, sign and digits that `ParseInt32` reads from `s`. */
  lemma SplitIntegerText(s: string) returns (lead: string, sign: string, ds: string, trail: string)
    requires ParseInt32(s).Some?
    ensures IntegerText(lead, sign, ds, trail) && s == lead + sign + ds + trail
  {
    var k := TrimStartShape(s);
    var u := s[k..];
    var j := TrimEndShape(u);
    var t := u[..j];
    assert t == TrimEnd(TrimStart(s));
    lead, trail := s[..k], u[j..];
    sign := if t != [] && (t[0] == '+' || t[0] == '-') then t[..1] else [];
    ds := t[|sign|..];
    assert t == sign + ds;
    assert u == t + trail;
    assert s == lead + u;
    ConcatAssociates(lead, sign + ds, trail);
    ConcatAssociates(lead, sign, ds);
  }

  /** The decimal digits of `n`, without leading zeros. */
  function NatToDecimal(n: nat): (r: string)
    ensures r != [] && AllDigits(r)
    ensures DigitsValue(r) == n
    decreases n
  {
    if n < 10 then [DigitChar(n)]
    else
      var front := NatToDecimal(n / 10);
      var r := front + [DigitChar(n % 10)];
      assert r[..|r| - 1] == front;
      r
  }

  /** `Int32.ToString()` with the invariant culture's "-" sign. */
  function IntToString(n: int): (r: string)
    ensures r != [] && !IsWhiteSpace(r[0]) && !IsWhiteSpace(r[|r| - 1])
    ensures (r[0] == '-') == (n < 0)
  {
    if n < 0 then "-" + NatToDecimal(-n) else NatToDecimal(n)
  }

  /** Parsing the text of an Int32 gives the number back. */
  lemma ParseIntToString(n: int)
    requires InInt32(n)
    ensures ParseInt32(IntToString(n)) == Some(n)
  {
    var s := IntToString(n);
    assert TrimStart(s) == s;
    assert TrimEnd(s) == s;
    if n < 0 {
      assert s[1..] == NatToDecimal(-n);
    }
  }
}
