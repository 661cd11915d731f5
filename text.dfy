/** String operations the cleaning routine borrows from Python: splitting on
    a separator, reading a label of decimal digits as an integer, and reading
    a cleaned cell as a decimal number. */
module Text {

  datatype Option<T> = None | Some(value: T)

  // ---------------------------------------------------------------- split

  /** Python's `str.split(sep)` with an explicit one-character separator: the
      pieces between consecutive separators, empty pieces included, so a
      string with n separators has n + 1 pieces and "" has the one piece "". */
  function Split(s: string, sep: char): (parts: seq<string>)
    ensures |parts| >= 1
    ensures forall i :: 0 <= i < |parts| ==> sep !in parts[i]
  {
    if s == [] then [""]
    else
      var rest := Split(s[1..], sep);
      if s[0] == sep then [""] + rest
      else [[s[0]] + rest[0]] + rest[1..]
  }

  /** Python's `sep.join(parts)`. */
  function Join(parts: seq<string>, sep: char): string
  {
    if parts == [] then ""
    else if |parts| == 1 then parts[0]
    else parts[0] + [sep] + Join(parts[1..], sep)
  }

  /** Joining the pieces with the separator gives back the split string. */
  lemma {:induction false} JoinSplit(s: string, sep: char)
    ensures Join(Split(s, sep), sep) == s
  {
    if s != [] {
      var rest := Split(s[1..], sep);
      JoinSplit(s[1..], sep);
      if s[0] == sep {
        assert Split(s, sep) == [""] + rest;
        assert ([""] + rest)[1..] == rest;
        assert s == [sep] + s[1..];
      } else {
        var parts := Split(s, sep);
        assert parts == [[s[0]] + rest[0]] + rest[1..];
        assert s == [s[0]] + s[1..];
        if |rest| > 1 {
          assert parts[1..] == rest[1..];
        }
      }
    }
  }

  /** Splitting a piece free of the separator in front of more text extends
      the first piece of the rest. */
  lemma {:induction false} SplitPrefix(a: string, t: string, sep: char)
    requires sep !in a
    ensures var rest := Split(t, sep);
            Split(a + t, sep) == [a + rest[0]] + rest[1..]
  {
    var rest := Split(t, sep);
    if a == [] {
      assert a + t == t;
      assert a + rest[0] == rest[0];
      assert rest == [rest[0]] + rest[1..];
    } else {
      assert (a + t)[1..] == a[1..] + t;
      assert a[0] != sep;
      SplitPrefix(a[1..], t, sep);
      assert [a[0]] + (a[1..] + Split(t, sep)[0]) == a + Split(t, sep)[0];
    }
  }

  /** Splitting the join of separator-free pieces gives back the pieces. */
  lemma {:induction false} SplitJoin(parts: seq<string>, sep: char)
    requires |parts| >= 1
    requires forall i :: 0 <= i < |parts| ==> sep !in parts[i]
    ensures Split(Join(parts, sep), sep) == parts
  {
    if |parts| == 1 {
      SplitPrefix(parts[0], "", sep);
      assert parts[0] + "" == parts[0];
    } else {
      var tail := Join(parts[1..], sep);
      SplitJoin(parts[1..], sep);
      assert Split([sep] + tail, sep) == [""] + parts[1..] by {
        assert ([sep] + tail)[1..] == tail;
      }
      assert Join(parts, sep) == parts[0] + ([sep] + tail);
      SplitPrefix(parts[0], [sep] + tail, sep);
      assert parts[0] + "" == parts[0];
      assert parts == [parts[0]] + parts[1..];
    }
  }

  /** A string with n separators splits into n + 1 pieces. */
  lemma {:induction false} SplitCount(s: string, sep: char)
    ensures |Split(s, sep)| == multiset(s)[sep] + 1
  {
    if s != [] {
      SplitCount(s[1..], sep);
      assert s == [s[0]] + s[1..];
      assert multiset(s) == multiset([s[0]]) + multiset(s[1..]);
    }
  }

  // --------------------------------------------------------------- digits

  predicate IsDigit(c: char) { '0' <= c <= '9' }

  /** Every character is a decimal digit (the empty string included). */
  predicate AllDigits(s: string) { forall i :: 0 <= i < |s| ==> IsDigit(s[i]) }

  /** A non-empty string of decimal digits. */
  predicate IsDigits(s: string) { |s| > 0 && AllDigits(s) }

  function DigitValue(c: char): nat
    requires IsDigit(c)
  {
    c as int - '0' as int
  }

  function DigitChar(d: nat): char
    requires d < 10
  {
    ('0' as int + d) as char
  }

  /** The number a digit string denotes in base ten, most significant digit
      first; leading zeros do not change it. */
  function DigitsValue(s: string): nat
    requires AllDigits(s)
  {
    if s == [] then 0
    else 10 * DigitsValue(s[..|s| - 1]) + DigitValue(s[|s| - 1])
  }

  /** Python's `int(label)` on a label: the value of a non-empty digit
      string, and no value for anything else. */
  function ParseNat(s: string): (r: Option<nat>)
    ensures r.Some? <==> IsDigits(s)
  {
    if IsDigits(s) then Some(DigitsValue(s)) else None
  }

  /** The canonical decimal spelling of `n`: no leading zero except for 0. */
  function FormatNat(n: nat): (r: string)
    ensures IsDigits(r)
    ensures r[0] == '0' ==> r == "0"
  {
    if n < 10 then [DigitChar(n)]
    else FormatNat(n / 10) + [DigitChar(n % 10)]
  }

  /** Reading the canonical spelling of a number gives back the number. */
  lemma {:induction false} ParseFormat(n: nat)
    ensures ParseNat(FormatNat(n)) == Some(n)
  {
    var r := FormatNat(n);
    if n < 10 {
      assert r == [DigitChar(n)];
      assert DigitValue(r[0]) == n;
      assert r[..|r| - 1] == [];
      assert DigitsValue(r) == n;
    } else {
      ParseFormat(n / 10);
      assert r[..|r| - 1] == FormatNat(n / 10);
      assert DigitValue(r[|r| - 1]) == n % 10;
      assert DigitsValue(r) == 10 * (n / 10) + n % 10;
    }
  }

  /** A digit string that does not start with zero has a positive value. */
  lemma {:induction false} LeadingDigitPositive(s: string)
    requires IsDigits(s) && s[0] != '0'
    ensures DigitsValue(s) > 0
  {
    if |s| > 1 {
      LeadingDigitPositive(s[..|s| - 1]);
    }
  }

  /** Spelling the value of a digit string without leading zeros gives back
      the string. */
  lemma {:induction false} FormatParse(s: string)
    requires IsDigits(s)
    requires |s| == 1 || s[0] != '0'
    ensures FormatNat(DigitsValue(s)) == s
  {
    if |s| > 1 {
      var init := s[..|s| - 1];
      LeadingDigitPositive(init);
      FormatParse(init);
      var v := DigitsValue(s);
      assert v / 10 == DigitsValue(init) && v % 10 == DigitValue(s[|s| - 1]);
      assert s == init + [s[|s| - 1]];
    }
  }

  // ------------------------------------------------------------- decimals

  /** The exact number mantissa / 10^scale. */
  datatype Decimal = Decimal(mantissa: nat, scale: nat)

  /** A decimal literal over the characters that survive value cleaning:
      digits with at most one decimal point, and at least one digit. */
  predicate IsDecimalLiteral(s: string)
  {
    IsDigits(s) ||
    (|s| > 1 && exists i :: 0 <= i < |s| && s[i] == '.' && AllDigits(s[..i]) && AllDigits(s[i + 1..]))
  }

  /** Numeric reading of a cleaned cell, without the binary floating-point
      rounding: "81.2" is 812 / 10^1, a string that is not a decimal literal
      has no value. */
  function ToNumeric(s: string): Option<Decimal>
  {
    var parts := Split(s, '.');
    if |parts| == 1 then
      if IsDigits(s) then Some(Decimal(DigitsValue(s), 0)) else None
    else if |parts| == 2 && |s| > 1 && AllDigits(parts[0]) && AllDigits(parts[1]) then
      Some(Decimal(DigitsValue(parts[0] + parts[1]), |parts[1]|))
    else None
  }

  /** ToNumeric gives a value exactly for the decimal literals. */
  lemma ToNumericDefined(s: string)
    ensures ToNumeric(s).Some? <==> IsDecimalLiteral(s)
  {
    if ToNumeric(s).Some? {
      ToNumericOnlyLiterals(s);
    }
    if IsDecimalLiteral(s) {
      ToNumericAllLiterals(s);
    }
  }

  lemma ToNumericOnlyLiterals(s: string)
    requires ToNumeric(s).Some?
    ensures IsDecimalLiteral(s)
  {
    var parts := Split(s, '.');
    if !IsDigits(s) {
      assert |parts| == 2;
      JoinSplit(s, '.');
      var i := |parts[0]|;
      assert Join(parts, '.') == parts[0] + ['.'] + Join(parts[1..], '.');
      assert parts[1..] == [parts[1]];
      assert s == parts[0] + ['.'] + parts[1];
      assert s[..i] == parts[0] && s[i + 1..] == parts[1] && s[i] == '.';
    }
  }

  lemma ToNumericAllLiterals(s: string)
    requires IsDecimalLiteral(s)
    ensures ToNumeric(s).Some?
  {
    var parts := Split(s, '.');
    if IsDigits(s) {
      NoPointInDigits(s);
      SplitCount(s, '.');
      assert multiset(s)['.'] == 0;
    } else {
      var i :| 0 <= i < |s| && s[i] == '.' && AllDigits(s[..i]) && AllDigits(s[i + 1..]);
      var pieces := [s[..i], s[i + 1..]];
      NoPointInDigits(s[..i]);
      NoPointInDigits(s[i + 1..]);
      assert s == s[..i] + ['.'] + s[i + 1..];
      assert Join(pieces, '.') == s by {
        assert pieces[1..] == [s[i + 1..]];
      }
      SplitJoin(pieces, '.');
      assert parts == pieces;
    }
  }

  /** A digit string contains no decimal point. */
  lemma NoPointInDigits(s: string)
    requires AllDigits(s)
    ensures '.' !in s
  {
    forall k | 0 <= k < |s|
      ensures s[k] != '.'
    {
      assert IsDigit(s[k]);
    }
  }
}
