/**
  Lexical pieces of the GEDCOM date grammar: decimal digit strings, the
  three-letter Gregorian month names, and splitting a string into its
  space-separated fields.
*/
module DateText {
  import opened Wrappers

  /** The month names of the GEDCOM 5.5.1 MONTH production, January first. */
  const MonthNames: seq<string> :=
    ["JAN", "FEB", "MAR", "APR", "MAY", "JUN", "JUL", "AUG", "SEP", "OCT", "NOV", "DEC"]

  predicate IsDigit(c: char) {
    '0' <= c <= '9'
  }

  predicate AllDigits(s: string) {
    forall i :: 0 <= i < |s| ==> IsDigit(s[i])
  }

  /** The value of a string of decimal digits, most significant digit first. */
  function DigitsValue(s: string): (n: nat)
    requires AllDigits(s)
  {
    if |s| == 0 then 0
    else DigitsValue(s[..|s| - 1]) * 10 + (s[|s| - 1] as int - '0' as int)
  }

  /** The decimal spelling of `n` without leading zeros (`"0"` for zero). */
  function NatToDigits(n: nat): (s: string)
    ensures AllDigits(s) && |s| >= 1
    ensures ' ' !in s
  {
    var last := [('0' as int + n % 10) as char];
    if n < 10 then last else NatToDigits(n / 10) + last
  }

  /** Reading back a spelled-out number gives the number. */
  lemma {:induction false} DigitsRoundTrip(n: nat)
    ensures DigitsValue(NatToDigits(n)) == n
  {
    var s := NatToDigits(n);
    assert s[..|s| - 1] == if n < 10 then [] else NatToDigits(n / 10);
    if n >= 10 {
      DigitsRoundTrip(n / 10);
    }
  }

  /** Numbers of 1-2 digits are 1..99, of 3-4 digits are 100..9999. */
  lemma DigitsLength(n: nat)
    ensures 1 <= n <= 99 ==> 1 <= |NatToDigits(n)| <= 2
    ensures 100 <= n <= 9999 ==> 3 <= |NatToDigits(n)| <= 4
  {
    if n >= 10 {
      assert |NatToDigits(n)| == |NatToDigits(n / 10)| + 1;
      if n >= 100 {
        assert |NatToDigits(n / 10)| == |NatToDigits(n / 100)| + 1;
        assert n / 10 / 10 == n / 100;
        if n >= 1000 {
          assert |NatToDigits(n / 100)| == |NatToDigits(n / 1000)| + 1;
          assert n / 100 / 10 == n / 1000;
        }
      }
    }
  }

  /**
    The month number (1..12) a field names, or `None` when it is not one of
    the twelve month names.
  */
  function MonthNumber(tok: string): (r: Option<int>)
    ensures r.Some? ==> 1 <= r.value <= 12 && MonthNames[r.value - 1] == tok
    ensures r.None? <==> tok !in MonthNames
  {
    MonthFrom(tok, 0)
  }

  function MonthFrom(tok: string, i: nat): (r: Option<int>)
    requires i <= 12
    ensures r.Some? ==> i + 1 <= r.value <= 12 && MonthNames[r.value - 1] == tok
    ensures r.None? <==> forall j :: i <= j < 12 ==> MonthNames[j] != tok
    decreases 12 - i
  {
    if i == 12 then None
    else if MonthNames[i] == tok then Some(i + 1)
    else MonthFrom(tok, i + 1)
  }

  /** Month names are pairwise distinct, so a month is recovered from its name. */
  lemma MonthNameRoundTrip(m: int)
    requires 1 <= m <= 12
    ensures MonthNumber(MonthNames[m - 1]) == Some(m)
  {
    var tok := MonthNames[m - 1];
    assert |tok| == 3;
    forall j | 0 <= j < m - 1
      ensures MonthNames[j] != tok
    {
      assert |MonthNames[j]| == 3;
      assert MonthNames[j][0] != tok[0] || MonthNames[j][1] != tok[1] || MonthNames[j][2] != tok[2];
    }
    MonthFromSkips(tok, 0, m - 1);
  }

  /** Searching from `i` skips names before `k` that differ from `tok` and stops at `k`. */
  lemma {:induction false} MonthFromSkips(tok: string, i: nat, k: nat)
    requires i <= k < 12 && MonthNames[k] == tok
    requires forall j :: i <= j < k ==> MonthNames[j] != tok
    ensures MonthFrom(tok, i) == Some(k + 1)
    decreases k - i
  {
    if i < k {
      MonthFromSkips(tok, i + 1, k);
    }
  }

  /**
    The space-separated fields of `s`, in order. Every space separates two
    fields, so two adjacent spaces or a leading or trailing space yield an
    empty field.
  */
  function Split(s: string): (r: seq<string>)
    ensures |r| >= 1
    ensures forall i :: 0 <= i < |r| ==> ' ' !in r[i]
  {
    if |s| == 0 then [""]
    else if s[0] == ' ' then [""] + Split(s[1..])
    else
      var rest := Split(s[1..]);
      [[s[0]] + rest[0]] + rest[1..]
  }

  /** The inverse of `Split`: the fields glued back with single spaces. */
  function Join(fields: seq<string>): string
    requires |fields| >= 1
  {
    if |fields| == 1 then fields[0] else fields[0] + " " + Join(fields[1..])
  }

  /** Splitting loses nothing: the fields join back into the original string. */
  lemma {:induction false} JoinSplit(s: string)
    ensures Join(Split(s)) == s
  {
    if |s| == 0 {
    } else if s[0] == ' ' {
      JoinSplit(s[1..]);
      assert s == " " + s[1..];
    } else {
      var rest := Split(s[1..]);
      JoinSplit(s[1..]);
      if |rest| == 1 {
        assert s == [s[0]] + s[1..];
      } else {
        assert Join(rest) == rest[0] + " " + Join(rest[1..]);
        assert s == [s[0]] + s[1..];
      }
    }
  }

  /** A field without spaces followed by a space starts a new field. */
  lemma {:induction false} SplitCons(a: string, b: string)
    requires ' ' !in a
    ensures Split(a + " " + b) == [a] + Split(b)
    decreases |a|
  {
    if |a| == 0 {
      assert a + " " + b == [' '] + b;
      assert (a + " " + b)[1..] == b;
    } else {
      var t := a + " " + b;
      assert t[1..] == a[1..] + " " + b;
      SplitCons(a[1..], b);
      assert [t[0]] + a[1..] == a;
    }
  }

  /** A string without spaces is a single field. */
  lemma {:induction false} SplitSingle(a: string)
    requires ' ' !in a
    ensures Split(a) == [a]
    decreases |a|
  {
    if |a| > 0 {
      SplitSingle(a[1..]);
      assert [a[0]] + a[1..] == a;
    }
  }

  /** Splitting fields glued with single spaces gives the fields back. */
  lemma {:induction false} SplitJoin(fields: seq<string>)
    requires |fields| >= 1
    requires forall i :: 0 <= i < |fields| ==> ' ' !in fields[i]
    ensures Split(Join(fields)) == fields
  {
    if |fields| == 1 {
      SplitSingle(fields[0]);
    } else {
      SplitJoin(fields[1..]);
      SplitCons(fields[0], Join(fields[1..]));
      assert [fields[0]] + fields[1..] == fields;
    }
  }
}
