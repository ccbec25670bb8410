/** The Python string built-ins the report extractor relies on: substring
    test (`p in s`), `str.split(d)` with a one-character separator, the
    field `s.split(d)[1]`, and `int()` on a string (Python 3.5, base 10). */
module PyStr {
  import opened Wrappers

  // ---------------------------------------------------------------------
  // Substring containment: `p in s`

  /** `p` occurs in `s` starting at index `i`. */
  ghost predicate OccursAt(s: string, p: string, i: int) {
    0 <= i && i + |p| <= |s| && s[i..i + |p|] == p
  }

  /** Python's `p in s` for strings. */
  function Contains(s: string, p: string): bool
    decreases |s|
  {
    if |s| < |p| then false
    else s[..|p|] == p || Contains(s[1..], p)
  }

  lemma {:induction false} ContainsIff(s: string, p: string)
    ensures Contains(s, p) <==> exists i :: OccursAt(s, p, i)
    decreases |s|
  {
    if |s| < |p| {
      forall i | OccursAt(s, p, i) ensures false { }
    } else if s[..|p|] == p {
      assert OccursAt(s, p, 0);
    } else {
      ContainsIff(s[1..], p);
      if Contains(s[1..], p) {
        var i :| OccursAt(s[1..], p, i);
        assert s[1..][i..i + |p|] == s[i + 1..i + 1 + |p|];
        assert OccursAt(s, p, i + 1);
      } else {
        forall i | OccursAt(s, p, i) ensures false {
          assert i != 0;
          assert 1 <= i && i + |p| <= |s|;
          assert s[1..][i - 1..i - 1 + |p|] == s[i..i + |p|];
          assert OccursAt(s[1..], p, i - 1);
        }
      }
    }
  }

  // ---------------------------------------------------------------------
  // Splitting on a one-character separator: `s.split(d)`

  /** Index of the first occurrence of `d` in `s`. */
  function FirstIndex(s: string, d: char): (i: nat)
    requires d in s
    ensures i < |s| && s[i] == d && d !in s[..i]
  {
    if s[0] == d then 0
    else
      var j := FirstIndex(s[1..], d);
      assert s[..j + 1] == [s[0]] + s[1..][..j];
      j + 1
  }

  /** `d.join(parts)`: the inverse of `Split`. */
  function Join(parts: seq<string>, d: char): string {
    if |parts| == 0 then ""
    else if |parts| == 1 then parts[0]
    else parts[0] + [d] + Join(parts[1..], d)
  }

  /** `s.split(d)`: the pieces of `s` between occurrences of `d`. */
  function Split(s: string, d: char): seq<string>
    decreases |s|
  {
    if d !in s then [s]
    else
      var i := FirstIndex(s, d);
      [s[..i]] + Split(s[i + 1..], d)
  }

  /** The pieces are `d`-free and `Join` reassembles them into `s`; there are
      at least two exactly when `d` occurs in `s`. */
  lemma {:induction false} SplitSpec(s: string, d: char)
    ensures var parts := Split(s, d);
      && |parts| >= 1
      && (|parts| > 1 <==> d in s)
      && (forall k :: 0 <= k < |parts| ==> d !in parts[k])
      && Join(parts, d) == s
  {
    SplitPiecesFree(s, d);
    SplitJoinsBack(s, d);
  }

  lemma {:induction false} SplitPiecesFree(s: string, d: char)
    ensures var parts := Split(s, d);
      && |parts| >= 1
      && (|parts| > 1 <==> d in s)
      && (forall k :: 0 <= k < |parts| ==> d !in parts[k])
    decreases |s|
  {
    if d in s {
      var i := FirstIndex(s, d);
      SplitPiecesFree(s[i + 1..], d);
      var rest := Split(s[i + 1..], d);
      var parts := [s[..i]] + rest;
      SplitFirst(s, d);
      assert |parts| > 1;
      forall k | 0 <= k < |parts| ensures d !in parts[k] {
        if k > 0 {
          assert parts[k] == rest[k - 1];
        }
      }
    } else {
      assert Split(s, d) == [s];
    }
  }

  lemma {:induction false} SplitJoinsBack(s: string, d: char)
    ensures Join(Split(s, d), d) == s
    decreases |s|
  {
    if d in s {
      var i := FirstIndex(s, d);
      SplitPiecesFree(s[i + 1..], d);
      SplitJoinsBack(s[i + 1..], d);
      var rest := Split(s[i + 1..], d);
      var parts := [s[..i]] + rest;
      SplitFirst(s, d);
      assert parts[1..] == rest;
      assert Join(parts, d) == s[..i] + [d] + Join(rest, d);
      assert s == s[..i] + [d] + s[i + 1..];
    }
  }

  /** Splitting at the first `d`, which follows the `d`-free `p`. */
  lemma SplitAfter(p: string, d: char, rest: string)
    requires d !in p
    ensures Split(p + [d] + rest, d) == [p] + Split(rest, d)
  {
    var s := p + [d] + rest;
    assert s[|p|] == d;
    assert FirstIndex(s, d) == |p|;
    assert s[..|p|] == p;
    assert s[|p| + 1..] == rest;
  }

  /** Splitting a join of `d`-free pieces gives the pieces back. */
  lemma {:induction false} SplitJoin(parts: seq<string>, d: char)
    requires |parts| >= 1
    requires forall k :: 0 <= k < |parts| ==> d !in parts[k]
    ensures Split(Join(parts, d), d) == parts
    decreases |parts|
  {
    if |parts| > 1 {
      var p := parts[0];
      var tail := parts[1..];
      var rest := Join(tail, d);
      assert Join(parts, d) == p + [d] + rest;
      assert Split(p + [d] + rest, d) == [p] + Split(rest, d) by {
        SplitAfter(p, d, rest);
      }
      assert Split(rest, d) == tail by {
        forall k | 0 <= k < |tail| ensures d !in tail[k] {
          assert tail[k] == parts[k + 1];
        }
        SplitJoin(tail, d);
      }
      assert parts == [p] + tail;
    } else {
      assert parts == [parts[0]];
    }
  }

  /** `s.split(d)[1]`, or `None` where Python raises IndexError. */
  function Field(s: string, d: char): Option<string> {
    var parts := Split(s, d);
    if |parts| < 2 then None else Some(parts[1])
  }

  /** The field is missing exactly when `d` does not occur in `s`; otherwise
      it is the text after the first `d` up to the next `d` or the end. */
  lemma FieldSpec(s: string, d: char)
    ensures Field(s, d).None? <==> d !in s
    ensures Field(s, d).Some? ==>
              var f := Field(s, d).value;
              var i := FirstIndex(s, d);
              && d !in f
              && i + 1 + |f| <= |s|
              && s[i + 1..i + 1 + |f|] == f
              && (i + 1 + |f| == |s| || s[i + 1 + |f|] == d)
  {
    if d in s {
      FieldPresent(s, d);
    } else {
      assert Split(s, d) == [s];
    }
  }

  /** Where `d` occurs, the field lies between the first `d` and the next
      `d` or the end. */
  lemma FieldPresent(s: string, d: char)
    requires d in s
    ensures Field(s, d).Some?
    ensures var f := Field(s, d).value;
            var i := FirstIndex(s, d);
            && d !in f
            && i + 1 + |f| <= |s|
            && s[i + 1..i + 1 + |f|] == f
            && (i + 1 + |f| == |s| || s[i + 1 + |f|] == d)
  {
    var i := FirstIndex(s, d);
    var t := s[i + 1..];
    FieldAfterFirst(s, d);
    FirstPiece(t, d);
    var f := Split(t, d)[0];
    assert Field(s, d).value == f;
    assert |t| == |s| - (i + 1);
    assert s[i + 1..i + 1 + |f|] == t[..|f|];
    assert |f| < |t| ==> s[i + 1 + |f|] == t[|f|];
  }

  /** Where `d` occurs, the field is the first piece after the first `d`. */
  lemma FieldAfterFirst(s: string, d: char)
    requires d in s
    ensures |Split(s[FirstIndex(s, d) + 1..], d)| >= 1
    ensures Field(s, d) == Some(Split(s[FirstIndex(s, d) + 1..], d)[0])
  {
    var i := FirstIndex(s, d);
    var t := s[i + 1..];
    FirstPiece(t, d);
    SplitFirst(s, d);
  }

  /** One step of `Split`, stated on its own so that callers do not unfold
      `Split` in a larger context. */
  lemma SplitFirst(s: string, d: char)
    requires d in s
    ensures Split(s, d) == [s[..FirstIndex(s, d)]] + Split(s[FirstIndex(s, d) + 1..], d)
  {
  }

  /** The first piece of `t.split(d)` is the `d`-free text before the first
      `d`, or all of `t`. */
  lemma FirstPiece(t: string, d: char)
    ensures |Split(t, d)| >= 1
    ensures var f := Split(t, d)[0];
      && d !in f && |f| <= |t| && t[..|f|] == f && (|f| == |t| || t[|f|] == d)
  {
    if d in t {
      var j := FirstIndex(t, d);
      assert Split(t, d)[0] == t[..j];
    } else {
      assert t[..|t|] == t;
    }
  }

  // ---------------------------------------------------------------------
  // `int(s)` for a string `s`

  /** The white space `int()` skips around a number: the ASCII characters
      `\t`, `\n`, `\v`, `\f`, `\r` and space (not `\x1c`..`\x1f`, which
      `str.isspace()` counts but `int()` rejects), and the non-ASCII
      characters `str.isspace()` accepts (which `int()` first turns into
      spaces). */
  predicate IsIntSpace(c: char) {
    || '\t' <= c <= '\r'
    || c == ' '
    || c == '\U{85}' || c == '\U{A0}' || c == '\U{1680}'
    || '\U{2000}' <= c <= '\U{200A}'
    || c == '\U{2028}' || c == '\U{2029}' || c == '\U{202F}'
    || c == '\U{205F}' || c == '\U{3000}'
  }

  predicate AllIntSpace(s: string) {
    forall k :: 0 <= k < |s| ==> IsIntSpace(s[k])
  }

  /** The white space `int()` skips on the left. */
  function StripLeft(s: string): string {
    if s == [] || !IsIntSpace(s[0]) then s else StripLeft(s[1..])
  }

  /** The white space `int()` skips on the right. */
  function StripRight(s: string): string {
    if s == [] || !IsIntSpace(s[|s| - 1]) then s else StripRight(s[..|s| - 1])
  }

  /** Stripping on the left keeps a suffix, drops only white space, and
      leaves nothing that starts with it. */
  lemma {:induction false} StripLeftSpec(s: string)
    ensures var t := StripLeft(s);
      && |t| <= |s| && t == s[|s| - |t|..]
      && AllIntSpace(s[..|s| - |t|])
      && (t == [] || !IsIntSpace(t[0]))
  {
    if s != [] && IsIntSpace(s[0]) {
      StripLeftSpec(s[1..]);
      var t := StripLeft(s[1..]);
      assert s[..|s| - |t|] == [s[0]] + s[1..][..|s| - 1 - |t|];
    }
  }

  /** Stripping on the right keeps a prefix, drops only white space, and
      leaves nothing that ends with it. */
  lemma {:induction false} StripRightSpec(s: string)
    ensures var t := StripRight(s);
      && |t| <= |s| && t == s[..|t|]
      && AllIntSpace(s[|t|..])
      && (t == [] || !IsIntSpace(t[|t| - 1]))
  {
    if s != [] && IsIntSpace(s[|s| - 1]) {
      StripRightSpec(s[..|s| - 1]);
      var t := StripRight(s[..|s| - 1]);
      assert s[|t|..] == s[..|s| - 1][|t|..] + [s[|s| - 1]];
    }
  }

  /** The text `int()` reads once the surrounding white space is skipped. */
  function Strip(s: string): string {
    StripRight(StripLeft(s))
  }

  predicate IsDigit(c: char) {
    '0' <= c <= '9'
  }

  predicate AllDigits(s: string) {
    forall k :: 0 <= k < |s| ==> IsDigit(s[k])
  }

  function DigitValue(c: char): nat
    requires IsDigit(c)
  {
    (c as int) - ('0' as int)
  }

  /** The decimal value of a string of digits, most significant first. */
  function DigitsValue(s: string): nat
    requires AllDigits(s)
  {
    if s == [] then 0
    else 10 * DigitsValue(s[..|s| - 1]) + DigitValue(s[|s| - 1])
  }

  /** `int(s)`: after stripping white space, an optional sign followed by at
      least one decimal digit; `None` where Python raises ValueError. */
  function ParseInt(s: string): Option<int> {
    ParseSigned(Strip(s))
  }

  /** An optional sign followed by at least one decimal digit, nothing else. */
  function ParseSigned(t: string): Option<int> {
    if |t| > 0 && (t[0] == '+' || t[0] == '-') then
      var digits := t[1..];
      if |digits| > 0 && AllDigits(digits) then
        var v: int := DigitsValue(digits);
        Some(if t[0] == '-' then -v else v)
      else None
    else if |t| > 0 && AllDigits(t) then Some(DigitsValue(t))
    else None
  }

  // ---------------------------------------------------------------------
  // `str(n)`, the partner of `int()`

  function DigitChar(n: nat): (c: char)
    requires n < 10
    ensures IsDigit(c) && DigitValue(c) == n
  {
    ('0' as int + n) as char
  }

  /** `str(n)` for a natural number: its decimal digits. */
  function FormatNat(n: nat): (s: string)
    ensures |s| > 0 && AllDigits(s)
  {
    if n < 10 then [DigitChar(n)]
    else FormatNat(n / 10) + [DigitChar(n % 10)]
  }

  /** `str(n)` for an integer. */
  function FormatInt(n: int): string {
    if n < 0 then "-" + FormatNat(-n) else FormatNat(n)
  }

  lemma {:induction false} DigitsValueFormatNat(n: nat)
    ensures DigitsValue(FormatNat(n)) == n
  {
    if n >= 10 {
      var s := FormatNat(n);
      assert s[..|s| - 1] == FormatNat(n / 10);
      DigitsValueFormatNat(n / 10);
    }
  }

  lemma {:induction false} StripLeftPadded(lead: string, u: string)
    requires AllIntSpace(lead) && |u| > 0 && !IsIntSpace(u[0])
    ensures StripLeft(lead + u) == u
    decreases |lead|
  {
    if lead != [] {
      assert (lead + u)[1..] == lead[1..] + u;
      StripLeftPadded(lead[1..], u);
    }
  }

  lemma {:induction false} StripRightPadded(u: string, trail: string)
    requires AllIntSpace(trail) && |u| > 0 && !IsIntSpace(u[|u| - 1])
    ensures StripRight(u + trail) == u
    decreases |trail|
  {
    if trail != [] {
      var s := u + trail;
      assert s[..|s| - 1] == u + trail[..|trail| - 1];
      StripRightPadded(u, trail[..|trail| - 1]);
    } else {
      assert u + trail == u;
    }
  }

  /** Stripping a string that starts and ends with a non-space, padded on
      both sides with white space, gives that string back. */
  lemma StripPadded(lead: string, t: string, trail: string)
    requires AllIntSpace(lead) && AllIntSpace(trail)
    requires |t| > 0 && !IsIntSpace(t[0]) && !IsIntSpace(t[|t| - 1])
    ensures Strip(lead + t + trail) == t
  {
    assert lead + t + trail == lead + (t + trail);
    StripLeftPadded(lead, t + trail);
    StripRightPadded(t, trail);
  }

  /** `int(str(n))` is `n`, also with surrounding white space (such as
      the newline that ends a line read from a file). */
  lemma ParseFormatInt(n: int, lead: string, trail: string)
    requires AllIntSpace(lead) && AllIntSpace(trail)
    ensures ParseInt(lead + FormatInt(n) + trail) == Some(n)
  {
    var t := FormatInt(n);
    var digits := FormatNat(if n < 0 then -n else n);
    assert IsDigit(digits[0]) && IsDigit(digits[|digits| - 1]);
    assert t[|t| - 1] == digits[|digits| - 1];
    StripPadded(lead, t, trail);
    ParseSignedFormatInt(n);
  }

  lemma ParseSignedFormatInt(n: int)
    ensures ParseSigned(FormatInt(n)) == Some(n)
  {
    if n < 0 {
      DigitsValueFormatNat(-n);
      assert FormatInt(n)[1..] == FormatNat(-n);
    } else {
      DigitsValueFormatNat(n);
      assert FormatInt(n)[0] != '+' && FormatInt(n)[0] != '-';
    }
  }

  /** The information separators `\x1c`..`\x1f` are white space to
      `str.isspace()` but not to `int()`: a number followed by one, as in
      `int("3\x1f\n")`, raises ValueError. */
  lemma SeparatorNotSkipped(lead: string, t: string, c: char, trail: string)
    requires AllIntSpace(lead) && AllIntSpace(trail)
    requires |t| > 0 && AllDigits(t)
    requires '\U{1C}' <= c <= '\U{1F}'
    ensures ParseInt(lead + t + [c] + trail) == None
  {
    var u := t + [c];
    assert lead + t + [c] + trail == lead + u + trail;
    StripPadded(lead, u, trail);
    assert !IsDigit(u[|u| - 1]);
  }

  /** A string without any decimal digit is never an integer. */
  lemma ParseIntNeedsDigit(s: string)
    requires forall k :: 0 <= k < |s| ==> !IsDigit(s[k])
    ensures ParseInt(s) == None
  {
    StripLeftSpec(s);
    var l := StripLeft(s);
    StripRightSpec(l);
    var t := StripRight(l);
    assert t == s[|s| - |l|..][..|t|];
    if |t| > 0 {
      assert !IsDigit(t[0]);
      if t[0] == '+' || t[0] == '-' {
        assert |t| > 1 ==> !IsDigit(t[1..][0]);
      }
    }
  }

  /** The optional sign `int()` accepts before the digits. */
  predicate OptionalSign(sign: string) {
    sign == "" || sign == "+" || sign == "-"
  }

  /** The value of `digits`, negated after a `-` sign. */
  function SignedValue(sign: string, digits: string): int
    requires AllDigits(digits)
  {
    var v: int := DigitsValue(digits);
    if sign == "-" then -v else v
  }

  /** What `int()` accepts, read off a string: exactly white space it
      skips, an optional sign, at least one digit and white space again, and
      the value is that of the digits, negated after `-`. */
  lemma ParseIntShape(s: string)
    requires ParseInt(s).Some?
    ensures exists lead, sign, digits, trail ::
              && s == lead + sign + digits + trail
              && AllIntSpace(lead) && AllIntSpace(trail)
              && OptionalSign(sign) && |digits| > 0 && AllDigits(digits)
              && ParseInt(s).value == SignedValue(sign, digits)
  {
    StripLeftSpec(s);
    var l := StripLeft(s);
    StripRightSpec(l);
    var t := StripRight(l);
    var lead := s[..|s| - |l|];
    var trail := l[|t|..];
    assert s == lead + t + trail by {
      assert s == lead + l && l == t + trail;
    }
    ShapeOf(s, lead, t, trail);
  }

  /** `s`, split as white space, `t` and white space, has the shape of
      `ParseIntShape` when `t` is a signed literal. */
  lemma ShapeOf(s: string, lead: string, t: string, trail: string)
    requires s == lead + t + trail && AllIntSpace(lead) && AllIntSpace(trail)
    requires ParseSigned(t).Some?
    ensures exists lead, sign, digits, trail ::
              && s == lead + sign + digits + trail
              && AllIntSpace(lead) && AllIntSpace(trail)
              && OptionalSign(sign) && |digits| > 0 && AllDigits(digits)
              && ParseSigned(t).value == SignedValue(sign, digits)
  {
    ParseSignedShape(t);
    var sign := SignOf(t);
    var digits := t[|sign|..];
    assert lead + t == lead + sign + digits;
    assert s == lead + sign + digits + trail;
  }

  /** The sign `ParseSigned` reads at the front of `t`, if any. */
  function SignOf(t: string): (sign: string)
    ensures |sign| <= |t| && sign == t[..|sign|]
  {
    if |t| > 0 && (t[0] == '+' || t[0] == '-') then t[..1] else ""
  }

  lemma ParseSignedShape(t: string)
    requires ParseSigned(t).Some?
    ensures var sign := SignOf(t);
            var digits := t[|sign|..];
            && t == sign + digits
            && OptionalSign(sign) && |digits| > 0 && AllDigits(digits)
            && ParseSigned(t) == Some(SignedValue(sign, digits))
  {
    var sign := SignOf(t);
    assert t == sign + t[|sign|..];
  }

  /** Conversely, `int()` accepts every such string, `+`-signed and
      zero-led digit strings included. */
  lemma ParseIntAccepts(lead: string, sign: string, digits: string, trail: string)
    requires AllIntSpace(lead) && AllIntSpace(trail)
    requires OptionalSign(sign) && |digits| > 0 && AllDigits(digits)
    ensures ParseInt(lead + sign + digits + trail)
            == Some(SignedValue(sign, digits))
  {
    var t := sign + digits;
    assert lead + sign + digits == lead + t;
    assert t[|t| - 1] == digits[|digits| - 1];
    StripPadded(lead, t, trail);
    ParseSignedDigits(sign, digits);
  }

  lemma ParseSignedDigits(sign: string, digits: string)
    requires OptionalSign(sign) && |digits| > 0 && AllDigits(digits)
    ensures ParseSigned(sign + digits)
            == Some(SignedValue(sign, digits))
  {
    var t := sign + digits;
    if sign == "" {
      assert t == digits;
    } else {
      assert t[1..] == digits;
    }
  }
}
