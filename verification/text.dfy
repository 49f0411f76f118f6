/**
 * The text primitives the CSV rows are built from: splitting and joining on
 * commas, decimal integers as `int.ToString` writes and `int.TryParse` reads
 * them, and booleans as `bool.ToString` writes and `bool.TryParse` reads them.
 */
module Text {
  import opened Outcomes

  // ---------------------------------------------------------------- fields

  /** `s.Split(',')`: the pieces between commas, empty pieces included. */
  function Split(s: string): (fields: seq<string>)
    ensures |fields| == multiset(s)[','] + 1
    ensures forall i :: 0 <= i < |fields| ==> ',' !in fields[i]
  {
    if |s| == 0 then [""]
    else
      var rest := Split(s[1..]);
      assert s == [s[0]] + s[1..];
      if s[0] == ',' then [""] + rest
      else [[s[0]] + rest[0]] + rest[1..]
  }

  /** `string.Join(",", fields)` for a non-empty list of fields. */
  function Join(fields: seq<string>): string
    requires |fields| >= 1
  {
    if |fields| == 1 then fields[0] else fields[0] + "," + Join(fields[1..])
  }

  /** Splitting a comma-free text gives that text as the one field. */
  lemma {:induction false} SplitPlain(a: string)
    requires ',' !in a
    ensures Split(a) == [a]
  {
    if |a| > 0 {
      SplitPlain(a[1..]);
      assert [a[0]] + a[1..] == a;
    }
  }

  /** A comma-free first field comes off a split unchanged. */
  lemma {:induction false} SplitCons(a: string, rest: string)
    requires ',' !in a
    ensures Split(a + "," + rest) == [a] + Split(rest)
  {
    if |a| == 0 {
      assert a + "," + rest == [','] + rest;
      assert (a + "," + rest)[1..] == rest;
    } else {
      var s := a + "," + rest;
      assert s[0] == a[0] && s[1..] == a[1..] + "," + rest;
      SplitCons(a[1..], rest);
      assert [a[0]] + a[1..] == a;
    }
  }

  /** Joining comma-free fields and splitting the result gives the fields back. */
  lemma {:induction false} SplitJoin(fields: seq<string>)
    requires |fields| >= 1
    requires forall i :: 0 <= i < |fields| ==> ',' !in fields[i]
    ensures Split(Join(fields)) == fields
  {
    if |fields| == 1 {
      SplitPlain(fields[0]);
    } else {
      SplitJoin(fields[1..]);
      SplitCons(fields[0], Join(fields[1..]));
      assert fields == [fields[0]] + fields[1..];
    }
  }

  /** Splitting a text and joining the fields with commas gives the text back. */
  lemma {:induction false} JoinSplit(s: string)
    ensures Join(Split(s)) == s
  {
    if |s| > 0 {
      var rest := Split(s[1..]);
      JoinSplit(s[1..]);
      assert s == [s[0]] + s[1..];
      if s[0] == ',' {
        assert Split(s) == [""] + rest;
        assert Split(s)[1..] == rest;
      } else {
        assert Split(s) == [[s[0]] + rest[0]] + rest[1..];
        JoinPrepend(s[0], rest);
      }
    }
  }

  /** A character put in front of the first field ends up in front of the joined line. */
  lemma JoinPrepend(c: char, fields: seq<string>)
    requires |fields| >= 1
    ensures Join([[c] + fields[0]] + fields[1..]) == [c] + Join(fields)
  {
    var f := [[c] + fields[0]] + fields[1..];
    assert |f| == |fields| && f[0] == [c] + fields[0] && f[1..] == fields[1..];
    if |fields| > 1 {
      var tail := Join(fields[1..]);
      assert Join(f) == ([c] + fields[0]) + "," + tail;
      assert Join(fields) == fields[0] + "," + tail;
      PrependRegroup(c, fields[0], tail);
    }
  }

  /** The character and the comma regroup freely around the first field. */
  lemma PrependRegroup(c: char, a: string, tail: string)
    ensures ([c] + a) + "," + tail == [c] + (a + "," + tail)
  {
  }

  /** Joining a field that holds a comma reads the same as joining its two parts as separate fields. */
  lemma JoinCommaField(n: string, a: string, b: string, rest: seq<string>)
    requires |rest| >= 1
    ensures Join([n, a + "," + b] + rest) == Join([n, a, b] + rest)
  {
    var tail := Join(rest);
    JoinTwo(n, a + "," + b, rest);
    JoinThree(n, a, b, rest);
    Regroup(n, a, b, tail);
  }

  /** The comma inside a field and the comma after it regroup freely. */
  lemma Regroup(n: string, a: string, b: string, tail: string)
    ensures n + "," + ((a + "," + b) + "," + tail) == n + "," + (a + "," + (b + "," + tail))
  {
  }

  /** Two fields in front of the rest, joined. */
  lemma JoinTwo(n: string, t: string, rest: seq<string>)
    requires |rest| >= 1
    ensures Join([n, t] + rest) == n + "," + (t + "," + Join(rest))
  {
  }

  /** Three fields in front of the rest, joined. */
  lemma JoinThree(n: string, a: string, b: string, rest: seq<string>)
    requires |rest| >= 1
    ensures Join([n, a, b] + rest) == n + "," + (a + "," + (b + "," + Join(rest)))
  {
    JoinCons(b, rest);
    JoinTwo(n, a, [b] + rest);
    assert [n, a, b] + rest == [n, a] + ([b] + rest);
  }

  /** Joining a field in front of at least one more: the field, a comma, then the rest joined. */
  lemma JoinCons(x: string, rest: seq<string>)
    requires |rest| >= 1
    ensures Join([x] + rest) == x + "," + Join(rest)
  {
  }

  // ---------------------------------------------------------------- integers

  predicate IsDigit(c: char) { '0' <= c <= '9' }

  /** One or more decimal digits. */
  predicate IsDigits(s: string) {
    |s| > 0 && forall i :: 0 <= i < |s| ==> IsDigit(s[i])
  }

  function DigitChar(d: nat): (c: char)
    requires d < 10
    ensures IsDigit(c)
  {
    (48 + d) as char
  }

  function DigitValue(c: char): (d: nat)
    requires IsDigit(c)
    ensures d < 10 && DigitChar(d) == c
  {
    (c as int) - 48
  }

  /** The decimal digits of a natural number, most significant first, without leading zeros. */
  function NatToString(n: nat): (s: string)
    ensures IsDigits(s)
    decreases n
  {
    if n < 10 then [DigitChar(n)] else NatToString(n / 10) + [DigitChar(n % 10)]
  }

  /** The number a digit string denotes. */
  function DigitsValue(s: string): nat
    requires forall i :: 0 <= i < |s| ==> IsDigit(s[i])
  {
    if |s| == 0 then 0 else DigitsValue(s[..|s| - 1]) * 10 + DigitValue(s[|s| - 1])
  }

  /** `n.ToString()`: a minus sign for negative numbers, then the digits. */
  function IntToString(n: int): (s: string)
    ensures |s| > 0 && (s[0] == '-' <==> n < 0)
    ensures IsDigits(if n < 0 then s[1..] else s)
  {
    if n < 0 then "-" + NatToString(-n) else NatToString(n)
  }

  /** `int.TryParse`: an optional sign followed by one or more decimal digits. */
  function ParseInt(s: string): (r: Option<int>)
    ensures r.Some? <==> IsDigits(s) || (|s| > 0 && (s[0] == '-' || s[0] == '+') && IsDigits(s[1..]))
  {
    if |s| > 0 && (s[0] == '-' || s[0] == '+') then
      if IsDigits(s[1..]) then
        var v: int := DigitsValue(s[1..]);
        Some(if s[0] == '-' then -v else v)
      else None
    else if IsDigits(s) then Some(DigitsValue(s))
    else None
  }

  /** Reading the digits of a natural number gives the number back. */
  lemma {:induction false} NatRoundTrip(n: nat)
    ensures DigitsValue(NatToString(n)) == n
  {
    if n >= 10 {
      var s := NatToString(n);
      NatRoundTrip(n / 10);
      assert s[..|s| - 1] == NatToString(n / 10);
    }
  }

  /** Formatting an integer and parsing the text gives the integer back. */
  lemma IntRoundTrip(n: int)
    ensures ParseInt(IntToString(n)) == Some(n)
  {
    var s := IntToString(n);
    if n < 0 {
      NatRoundTrip(-n);
      assert s[0] == '-' && s[1..] == NatToString(-n);
      assert IsDigits(s[1..]);
    } else {
      NatRoundTrip(n);
      assert s == NatToString(n) && IsDigit(s[0]);
    }
  }

  /** Leading zeros do not change a number's value. */
  lemma {:induction false} LeadingZero(s: string)
    requires forall i :: 0 <= i < |s| ==> IsDigit(s[i])
    ensures DigitsValue("0" + s) == DigitsValue(s)
  {
    if |s| > 0 {
      var t := "0" + s;
      assert t[..|t| - 1] == "0" + s[..|s| - 1];
      assert t[|t| - 1] == s[|s| - 1];
      LeadingZero(s[..|s| - 1]);
    } else {
      assert "0" + s == "0";
    }
  }

  /** A leading zero, a plus sign, or a minus sign in front of digits: what `int.TryParse` makes of each. */
  lemma ParseIntForms(s: string)
    requires IsDigits(s)
    ensures ParseInt("0" + s) == ParseInt(s)
    ensures ParseInt("+" + s) == ParseInt(s)
    ensures ParseInt("-" + s) == Some(-ParseInt(s).value)
  {
    var z := "0" + s;
    assert z[0] == '0' && IsDigits(z);
    LeadingZero(s);
    assert ("+" + s)[1..] == s && ("-" + s)[1..] == s;
  }

  /** A formatted integer never contains the field separator. */
  lemma IntToStringPlain(n: int)
    ensures ',' !in IntToString(n)
  {
  }

  // ---------------------------------------------------------------- booleans

  /** `bool.ToString()`. */
  function BoolToString(b: bool): (s: string)
    ensures ParseBool(s) == Some(b)
  {
    if b then "True" else "False"
  }

  function Lower(c: char): char {
    if 'A' <= c <= 'Z' then (c as int + 32) as char else c
  }

  /** Equality of two texts ignoring the case of ASCII letters. */
  predicate SameIgnoringCase(a: string, b: string) {
    |a| == |b| && forall i :: 0 <= i < |a| ==> Lower(a[i]) == Lower(b[i])
  }

  /** `bool.TryParse`: "true" or "false" in any letter case. */
  function ParseBool(s: string): (r: Option<bool>)
    ensures r == Some(true) <==> SameIgnoringCase(s, "true")
    ensures r == Some(false) <==> SameIgnoringCase(s, "false")
  {
    if SameIgnoringCase(s, "true") then Some(true)
    else if SameIgnoringCase(s, "false") then Some(false)
    else None
  }

  /** `bool.TryParse(s, out bool b) && b`: an unreadable flag counts as false. */
  function ReadFlag(s: string): (b: bool)
    ensures b <==> SameIgnoringCase(s, "true")
  {
    match ParseBool(s)
    case Some(v) => v
    case None => false
  }

  /** Formatting a flag and reading it back gives the flag. */
  lemma FlagRoundTrip(b: bool)
    ensures ReadFlag(BoolToString(b)) == b
    ensures ',' !in BoolToString(b)
  {
  }
}
