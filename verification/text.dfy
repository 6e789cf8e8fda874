/** The Python string operations the scripts rely on: `str.split` with a
    one-character separator, `sep.join`, the substring test `sub in s`,
    `str.endswith`, and `str(n)` of a non-negative integer. */
module Text {

  /** `sep.join(parts)` for a one-character separator. */
  function Join(parts: seq<string>, sep: char): string
  {
    if |parts| == 0 then ""
    else if |parts| == 1 then parts[0]
    else parts[0] + [sep] + Join(parts[1..], sep)
  }

  /** `s.split(sep)` for a one-character separator: the maximal
      separator-free pieces of `s`, at least one of them. */
  function Split(s: string, sep: char): (parts: seq<string>)
    ensures |parts| >= 1
    ensures forall i :: 0 <= i < |parts| ==> sep !in parts[i]
    decreases |s|
  {
    if |s| == 0 then [""] else SplitStep(s[0], Split(s[1..], sep), sep)
  }

  /** The pieces of `[c] + t` from the pieces `rest` of `t`: a separator
      starts a new empty piece, any other character joins the first piece. */
  function SplitStep(c: char, rest: seq<string>, sep: char): (parts: seq<string>)
    requires |rest| >= 1
    requires forall i :: 0 <= i < |rest| ==> sep !in rest[i]
    ensures |parts| >= 1
    ensures forall i :: 0 <= i < |parts| ==> sep !in parts[i]
  {
    if c == sep then [""] + rest else [[c] + rest[0]] + rest[1..]
  }

  lemma SplitStepAppend(c: char, front: seq<string>, back: seq<string>, sep: char)
    requires |front| >= 1 && |back| >= 1
    requires forall i :: 0 <= i < |front| ==> sep !in front[i]
    requires forall i :: 0 <= i < |back| ==> sep !in back[i]
    ensures SplitStep(c, front + back, sep) == SplitStep(c, front, sep) + back
  {
    if c != sep {
      assert (front + back)[0] == front[0];
      assert (front + back)[1..] == front[1..] + back;
    }
  }

  /** The last piece, Python's `s.split(sep)[-1]`. */
  function LastPart(s: string, sep: char): string
  {
    var parts := Split(s, sep);
    parts[|parts| - 1]
  }

  /** The first piece, Python's `s.split(sep)[0]`. */
  function FirstPart(s: string, sep: char): string
  {
    Split(s, sep)[0]
  }

  lemma JoinCons(head: string, tail: seq<string>, sep: char)
    requires |tail| >= 1
    ensures Join([head] + tail, sep) == head + [sep] + Join(tail, sep)
  {
    assert ([head] + tail)[1..] == tail;
  }

  /** A run of digits split at a non-digit is a single piece. */
  lemma SplitDigits(s: string, sep: char)
    requires !IsDigit(sep)
    ensures AllDigits(s) ==> Split(s, sep) == [s]
  {
    if AllDigits(s) {
      assert sep !in s by {
        forall i | 0 <= i < |s|
          ensures s[i] != sep
        {
          assert IsDigit(s[i]);
        }
      }
      SplitWithoutSep(s, sep);
    }
  }

  /** Joining the pieces of a split gives back the string. */
  lemma {:induction false} JoinSplit(s: string, sep: char)
    ensures Join(Split(s, sep), sep) == s
    decreases |s|
  {
    if |s| > 0 {
      var rest := Split(s[1..], sep);
      JoinSplit(s[1..], sep);
      assert s == [s[0]] + s[1..];
      if s[0] == sep {
        JoinCons("", rest, sep);
      } else if |rest| > 1 {
        var head := [s[0]] + rest[0];
        assert Split(s, sep) == [head] + rest[1..];
        JoinCons(head, rest[1..], sep);
        JoinCons(rest[0], rest[1..], sep);
        assert rest == [rest[0]] + rest[1..];
      }
    }
  }

  /** A string without the separator is a single piece. */
  lemma {:induction false} SplitWithoutSep(s: string, sep: char)
    requires sep !in s
    ensures Split(s, sep) == [s]
    decreases |s|
  {
    if |s| > 0 {
      assert sep !in s[1..];
      SplitWithoutSep(s[1..], sep);
      assert s == [s[0]] + s[1..];
    }
  }

  /** Splitting at one separator occurrence splits the two sides independently. */
  lemma {:induction false} SplitAppend(a: string, b: string, sep: char)
    ensures Split(a + [sep] + b, sep) == Split(a, sep) + Split(b, sep)
    decreases |a|
  {
    var s := a + [sep] + b;
    if |a| == 0 {
      assert s[1..] == b;
    } else {
      assert s[0] == a[0];
      assert s[1..] == a[1..] + [sep] + b;
      SplitAppend(a[1..], b, sep);
      SplitStepAppend(a[0], Split(a[1..], sep), Split(b, sep), sep);
    }
  }

  /** Splitting the pieces' join gives the pieces back when none holds the separator. */
  lemma {:induction false} SplitJoin(parts: seq<string>, sep: char)
    requires |parts| >= 1
    requires forall i :: 0 <= i < |parts| ==> sep !in parts[i]
    ensures Split(Join(parts, sep), sep) == parts
    decreases |parts|
  {
    if |parts| == 1 {
      SplitWithoutSep(parts[0], sep);
    } else {
      SplitJoin(parts[1..], sep);
      SplitWithoutSep(parts[0], sep);
      SplitAppend(parts[0], Join(parts[1..], sep), sep);
      assert parts == [parts[0]] + parts[1..];
    }
  }

  /** The last piece of `a + sep + t` is `t` when `t` has no separator. */
  lemma LastPartAfterSep(a: string, t: string, sep: char)
    requires sep !in t
    ensures LastPart(a + [sep] + t, sep) == t
  {
    SplitAppend(a, t, sep);
    SplitWithoutSep(t, sep);
  }

  /** The first piece of `t + sep + b` is `t` when `t` has no separator. */
  lemma FirstPartBeforeSep(t: string, b: string, sep: char)
    requires sep !in t
    ensures FirstPart(t + [sep] + b, sep) == t
  {
    SplitAppend(t, b, sep);
    SplitWithoutSep(t, sep);
  }

  /** Joining one more piece at the end adds a separator and that piece. */
  lemma {:induction false} JoinSnoc(parts: seq<string>, last: string, sep: char)
    requires |parts| >= 1
    ensures Join(parts + [last], sep) == Join(parts, sep) + [sep] + last
    decreases |parts|
  {
    if |parts| > 1 {
      JoinSnoc(parts[1..], last, sep);
      assert (parts + [last])[1..] == parts[1..] + [last];
    }
  }

  /** The last piece of a split is the separator-free tail after the last separator. */
  lemma LastPartIsTail(s: string, sep: char)
    ensures exists head :: s == head + LastPart(s, sep) && (|head| == 0 || head[|head| - 1] == sep)
    ensures sep !in LastPart(s, sep)
  {
    var parts := Split(s, sep);
    JoinSplit(s, sep);
    var n := |parts|;
    if n == 1 {
      assert s == [] + LastPart(s, sep);
    } else {
      assert parts == parts[..n - 1] + [parts[n - 1]];
      JoinSnoc(parts[..n - 1], parts[n - 1], sep);
      var head := Join(parts[..n - 1], sep) + [sep];
      assert s == head + LastPart(s, sep);
    }
  }

  /** The first piece of a split is the separator-free text before the first separator. */
  lemma FirstPartIsHead(s: string, sep: char)
    ensures exists tail :: s == FirstPart(s, sep) + tail && (|tail| == 0 || tail[0] == sep)
    ensures sep !in FirstPart(s, sep)
  {
    var parts := Split(s, sep);
    JoinSplit(s, sep);
    if |parts| == 1 {
      assert s == FirstPart(s, sep) + [];
    } else {
      JoinCons(parts[0], parts[1..], sep);
      assert parts == [parts[0]] + parts[1..];
      assert s == FirstPart(s, sep) + ([sep] + Join(parts[1..], sep));
    }
  }

  /** `s.startswith(prefix)`. */
  predicate StartsWith(s: string, prefix: string)
  {
    |prefix| <= |s| && s[..|prefix|] == prefix
  }

  /** `s.endswith(suffix)`. */
  predicate EndsWith(s: string, suffix: string)
  {
    |suffix| <= |s| && s[|s| - |suffix|..] == suffix
  }

  /** `sub` occurs in `s` starting at index `i`. */
  predicate OccursAt(s: string, sub: string, i: nat)
  {
    i <= |s| && StartsWith(s[i..], sub)
  }

  lemma OccursAtShift(s: string, sub: string)
    requires |s| > 0
    ensures forall j :: 0 <= j < |s| ==> (OccursAt(s[1..], sub, j) <==> OccursAt(s, sub, j + 1))
    ensures forall i :: 1 <= i <= |s| ==> (OccursAt(s, sub, i) <==> OccursAt(s[1..], sub, i - 1))
  {
    forall j | 0 <= j < |s| ensures s[1..][j..] == s[j + 1..] {}
  }

  /** Python's substring test `sub in s`, as a left-to-right search. */
  function Contains(s: string, sub: string): (found: bool)
    ensures found <==> exists i :: 0 <= i <= |s| && OccursAt(s, sub, i)
    decreases |s|
  {
    assert s[0..] == s;
    if StartsWith(s, sub) then
      assert OccursAt(s, sub, 0);
      true
    else if |s| == 0 then false
    else
      OccursAtShift(s, sub);
      Contains(s[1..], sub)
  }

  /** A string contains each of its prefixes. */
  lemma ContainsPrefix(s: string, prefix: string)
    requires StartsWith(s, prefix)
    ensures Contains(s, prefix)
  {
    assert s[0..] == s;
  }

  predicate IsDigit(ch: char)
  {
    '0' <= ch <= '9'
  }

  predicate AllDigits(s: string)
  {
    forall i :: 0 <= i < |s| ==> IsDigit(s[i])
  }

  function DigitValue(ch: char): (d: nat)
    requires IsDigit(ch)
    ensures d < 10
  {
    (ch as int - '0' as int) as nat
  }

  function DigitChar(d: nat): (ch: char)
    requires d < 10
    ensures IsDigit(ch) && DigitValue(ch) == d
  {
    (d + '0' as int) as char
  }

  /** The value of a string of decimal digits (the empty string is 0). */
  function DecimalValue(s: string): nat
    requires AllDigits(s)
    decreases |s|
  {
    if |s| == 0 then 0
    else 10 * DecimalValue(s[..|s| - 1]) + DigitValue(s[|s| - 1])
  }

  /** `str(n)` for a non-negative integer: decimal digits without leading zeros. */
  function NatToString(n: nat): (s: string)
    ensures |s| >= 1 && AllDigits(s)
    ensures s[0] == '0' ==> n == 0
    decreases n
  {
    if n < 10 then [DigitChar(n)]
    else NatToString(n / 10) + [DigitChar(n % 10)]
  }

  /** Reading back the digits of `str(n)` gives `n`. */
  lemma {:induction false} DecimalValueOfNatToString(n: nat)
    ensures DecimalValue(NatToString(n)) == n
    decreases n
  {
    var s := NatToString(n);
    if n >= 10 {
      DecimalValueOfNatToString(n / 10);
      assert s[..|s| - 1] == NatToString(n / 10);
    }
  }

  /** Distinct integers have distinct decimal strings. */
  lemma NatToStringInjective(m: nat, n: nat)
    requires NatToString(m) == NatToString(n)
    ensures m == n
  {
    DecimalValueOfNatToString(m);
    DecimalValueOfNatToString(n);
  }
}
