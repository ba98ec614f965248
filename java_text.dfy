/**
 * The few pieces of java.lang.String and java.lang.Integer the receivers rely
 * on: Integer.toString, Integer.parseInt, String.trim and String.split with a
 * one-character literal pattern.
 */
module JavaText {
  import opened Wrappers

  const INT_MIN: int := -0x8000_0000
  const INT_MAX: int := 0x7FFF_FFFF

  predicate IsDigit(c: char)
  {
    '0' <= c <= '9'
  }

  predicate AllDigits(s: string)
  {
    forall i :: 0 <= i < |s| ==> IsDigit(s[i])
  }

  function DigitChar(d: int): (c: char)
    requires 0 <= d < 10
    ensures IsDigit(c) && c as int - '0' as int == d
  {
    (d + '0' as int) as char
  }

  /** The decimal digits of n, without leading zeros ("0" for zero). */
  function DigitsOf(n: nat): (s: string)
    ensures |s| >= 1
  {
    if n < 10 then [DigitChar(n)] else DigitsOf(n / 10) + [DigitChar(n % 10)]
  }

  /** Integer.toString: a minus sign for negatives, then the digits. */
  function IntToString(n: int): (s: string)
    ensures |s| >= 1
  {
    if n < 0 then "-" + DigitsOf(-n) else DigitsOf(n)
  }

  /** The value of a string of decimal digits. */
  function DecimalValue(s: string): nat
    requires AllDigits(s)
  {
    if s == [] then 0 else DecimalValue(s[..|s| - 1]) * 10 + (s[|s| - 1] as int - '0' as int)
  }

  /** An optional sign followed by one or more ASCII digits, of any size. */
  function SignedDecimal(s: string): (r: Option<int>)
    ensures r.Some? ==> |s| >= 1
  {
    var negative := |s| >= 1 && s[0] == '-';
    var digits := if |s| >= 1 && (s[0] == '-' || s[0] == '+') then s[1..] else s;
    if |digits| == 0 || !AllDigits(digits) then None
    else var v: int := DecimalValue(digits); Some(if negative then -v else v)
  }

  /** Integer.parseInt: a signed decimal within the 32-bit range; anything else is a NumberFormatException (None). */
  function ParseInt(s: string): (r: Option<int>)
    ensures r.Some? <==> SignedDecimal(s).Some? && INT_MIN <= SignedDecimal(s).value <= INT_MAX
    ensures r.Some? ==> r == SignedDecimal(s)
  {
    match SignedDecimal(s)
    case Some(v) => if INT_MIN <= v <= INT_MAX then Some(v) else None
    case None => None
  }

  lemma {:induction false} DigitsOfDigits(n: nat)
    ensures AllDigits(DigitsOf(n))
    ensures DecimalValue(DigitsOf(n)) == n
    decreases n
  {
    if n >= 10 {
      DigitsOfDigits(n / 10);
      var s := DigitsOf(n);
      assert s[..|s| - 1] == DigitsOf(n / 10);
    }
  }

  /** Reading back what Integer.toString wrote gives the number again. */
  lemma {:induction false} SignedDecimalOfIntToString(n: int)
    ensures SignedDecimal(IntToString(n)) == Some(n)
  {
    if n < 0 {
      DigitsOfDigits(-n);
      assert IntToString(n)[1..] == DigitsOf(-n);
    } else {
      DigitsOfDigits(n);
      assert DigitsOf(n)[0] != '-' && DigitsOf(n)[0] != '+';
    }
  }

  /** Integer.parseInt(Integer.toString(n)) == n for every 32-bit n. */
  lemma {:induction false} ParseIntOfIntToString(n: int)
    requires INT_MIN <= n <= INT_MAX
    ensures ParseInt(IntToString(n)) == Some(n)
  {
    SignedDecimalOfIntToString(n);
  }

  /** A single decimal digit parses to its value. */
  lemma {:induction false} ParseDigit(d: int)
    requires 0 <= d < 10
    ensures ParseInt([DigitChar(d)]) == Some(d)
  {
    ParseIntOfIntToString(d);
  }

  /** Different numbers print differently. */
  lemma {:induction false} IntToStringInjective(a: int, b: int)
    requires IntToString(a) == IntToString(b)
    ensures a == b
  {
    SignedDecimalOfIntToString(a);
    SignedDecimalOfIntToString(b);
  }

  lemma {:induction false} IntToStringHasNoSeparator(n: int, sep: char)
    requires sep != '-' && !IsDigit(sep)
    ensures sep !in IntToString(n)
  {
    if n < 0 {
      DigitsOfDigits(-n);
    } else {
      DigitsOfDigits(n);
    }
  }

  /** String.trim: drop every leading and trailing character at or below U+0020. */
  function Trim(s: string): (t: string)
    ensures |t| <= |s|
  {
    TrimEnd(TrimStart(s))
  }

  function TrimStart(s: string): (t: string)
    ensures |t| <= |s|
    ensures t == [] || t[0] > ' '
  {
    if s != [] && s[0] <= ' ' then TrimStart(s[1..]) else s
  }

  function TrimEnd(s: string): (t: string)
    ensures |t| <= |s|
    ensures t == [] || t[|t| - 1] > ' '
  {
    if s != [] && s[|s| - 1] <= ' ' then TrimEnd(s[..|s| - 1]) else s
  }

  /** trim() leaves nothing exactly when every character is at or below U+0020. */
  lemma {:induction false} TrimEmptyIff(s: string)
    ensures Trim(s) == [] <==> forall i :: 0 <= i < |s| ==> s[i] <= ' '
    decreases |s|
  {
    TrimStartEmptyIff(s);
    var u := TrimStart(s);
    if u != [] {
      assert TrimEnd(u) != [] by {
        TrimEndKeepsFirst(u);
      }
    }
  }

  lemma {:induction false} TrimStartEmptyIff(s: string)
    ensures TrimStart(s) == [] <==> forall i :: 0 <= i < |s| ==> s[i] <= ' '
    decreases |s|
  {
    if s != [] && s[0] <= ' ' {
      TrimStartEmptyIff(s[1..]);
      assert forall i :: 1 <= i < |s| ==> s[i] == s[1..][i - 1];
    }
  }

  lemma {:induction false} TrimEndKeepsFirst(s: string)
    requires s != [] && s[0] > ' '
    ensures TrimEnd(s) != []
    decreases |s|
  {
    if s[|s| - 1] <= ' ' {
      TrimEndKeepsFirst(s[..|s| - 1]);
    }
  }

  /** Every field between separators, trailing empty fields included; never empty. */
  function Fields(s: string, sep: char): (parts: seq<string>)
    ensures |parts| >= 1
  {
    if s == [] then [""]
    else if s[0] == sep then [""] + Fields(s[1..], sep)
    else var rest := Fields(s[1..], sep); [[s[0]] + rest[0]] + rest[1..]
  }

  /** The fields joined back with the separator. */
  function Join(parts: seq<string>, sep: char): string
    requires |parts| >= 1
  {
    if |parts| == 1 then parts[0] else parts[0] + [sep] + Join(parts[1..], sep)
  }

  /** Joining a first field onto the rest puts one separator between them. */
  lemma {:induction false} JoinCons(a: string, rest: seq<string>, sep: char)
    requires |rest| >= 1
    ensures Join([a] + rest, sep) == a + [sep] + Join(rest, sep)
  {
    assert ([a] + rest)[1..] == rest;
  }

  lemma {:induction false} FieldsOfField(a: string, sep: char)
    requires sep !in a
    ensures Fields(a, sep) == [a]
    decreases |a|
  {
    if a != [] {
      FieldsOfField(a[1..], sep);
      assert [a[0]] + a[1..] == a;
    }
  }

  /** Splitting a field followed by the separator peels that field off. */
  lemma {:induction false} FieldsOfCons(a: string, sep: char, b: string)
    requires sep !in a
    ensures Fields(a + [sep] + b, sep) == [a] + Fields(b, sep)
    decreases |a|
  {
    if a == [] {
      assert a + [sep] + b == [sep] + b;
      assert ([sep] + b)[1..] == b;
    } else {
      var s := a + [sep] + b;
      assert s[1..] == a[1..] + [sep] + b;
      FieldsOfCons(a[1..], sep, b);
      assert [a[0]] + a[1..] == a;
    }
  }

  /** Splitting undoes joining, when no field holds the separator. */
  lemma {:induction false} FieldsOfJoin(parts: seq<string>, sep: char)
    requires |parts| >= 1
    requires forall i :: 0 <= i < |parts| ==> sep !in parts[i]
    ensures Fields(Join(parts, sep), sep) == parts
    decreases |parts|
  {
    if |parts| == 1 {
      FieldsOfField(parts[0], sep);
    } else {
      FieldsOfJoin(parts[1..], sep);
      FieldsOfCons(parts[0], sep, Join(parts[1..], sep));
      assert [parts[0]] + parts[1..] == parts;
    }
  }

  function DropTrailingEmpty(parts: seq<string>): (r: seq<string>)
    ensures |r| <= |parts|
    ensures r == [] || r[|r| - 1] != ""
  {
    if parts != [] && parts[|parts| - 1] == "" then DropTrailingEmpty(parts[..|parts| - 1]) else parts
  }

  /**
   * String.split with a one-character literal pattern: the input itself when
   * the separator does not occur, otherwise its fields with trailing empty
   * fields removed (so "1.2.3.4." has four parts and "...." none).
   */
  function Split(s: string, sep: char): (parts: seq<string>)
    ensures sep !in s ==> parts == [s]
  {
    if sep !in s then [s] else DropTrailingEmpty(Fields(s, sep))
  }

  lemma {:induction false} DropAllEmpty(parts: seq<string>)
    requires forall i :: 0 <= i < |parts| ==> parts[i] == ""
    ensures DropTrailingEmpty(parts) == []
    decreases |parts|
  {
    if parts != [] {
      DropAllEmpty(parts[..|parts| - 1]);
    }
  }

  /** A string of separators only splits into no parts at all, unlike the empty string. */
  lemma {:induction false} SplitOfSeparatorsOnly()
    ensures Split("", '.') == [""]
    ensures Split("....", '.') == []
  {
    var empties: seq<string> := ["", "", "", "", ""];
    assert Join(empties, '.') == "....";
    FieldsOfJoin(empties, '.');
    DropAllEmpty(empties);
  }

  /** A trailing separator is dropped. */
  lemma {:induction false} SplitDropsTrailing()
    ensures Split("1.2.3.4.", '.') == ["1", "2", "3", "4"]
  {
    var parts: seq<string> := ["1", "2", "3", "4", ""];
    assert Join(parts[4..], '.') == "";
    assert Join(parts[3..], '.') == "4.";
    assert Join(parts[2..], '.') == "3.4.";
    assert Join(parts[1..], '.') == "2.3.4.";
    assert Join(parts, '.') == "1.2.3.4.";
    FieldsOfJoin(parts, '.');
    assert parts[..4] == ["1", "2", "3", "4"];
  }

  /** A leading separator yields an empty first part. */
  lemma {:induction false} SplitKeepsLeading()
    ensures Split(".1.2.3", '.') == ["", "1", "2", "3"]
  {
    var parts: seq<string> := ["", "1", "2", "3"];
    assert Join(parts[3..], '.') == "3";
    assert Join(parts[2..], '.') == "2.3";
    assert Join(parts[1..], '.') == "1.2.3";
    assert Join(parts, '.') == ".1.2.3";
    FieldsOfJoin(parts, '.');
  }
}
