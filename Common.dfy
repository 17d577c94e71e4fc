/** Shared vocabulary of the client library: optional values, the failure
    taxonomy the library throws, decimal rendering (std::to_string) and the
    separator join used by every printer. */
module Common {

  datatype Option<+T> = None | Some(value: T)

  /** The exceptions the library raises, one variant per exception type. */
  datatype Error =
    | InvalidArgument(what: string)            // std::invalid_argument
    | HttpError(status: int)                   // runtime_error thrown by handleCPRResponse
    | JsonError                                // logic_error raised by the JSON library
    | InvalidState(state: string)              // RemoteInterface::InvalidState
    | NotAccepted(service: string)             // RemoteInterface::NotAccepted
    | UnexpectedReceiveTimeout(timeoutMs: nat) // UnexpectedReceiveTimeout
    | SocketException(errno: int)              // SocketException

  /** Sequence concatenation is associative. */
  lemma AppendAssoc<T>(a: seq<T>, b: seq<T>, c: seq<T>)
    ensures (a + b) + c == a + (b + c)
  {
  }

  lemma InAppend<T>(a: seq<T>, b: seq<T>)
    ensures forall x :: x in a ==> x in a + b
    ensures forall x :: x in b ==> x in a + b
  {
  }

  lemma SplitLast<T>(xs: seq<T>)
    requires |xs| > 0
    ensures xs[..|xs| - 1] + [xs[|xs| - 1]] == xs
  {
  }

  lemma TakeOneMore<T>(xs: seq<T>, i: nat)
    requires i < |xs|
    ensures xs[..i + 1] == xs[..i] + [xs[i]]
  {
  }

  datatype Result<+T> = Ok(value: T) | Err(error: Error)

  /** Outcome of an operation that returns nothing but may throw. */
  datatype Outcome = Pass | Fail(error: Error)

  // ---------------------------------------------------------------------
  // Characters and decimal numbers

  predicate IsDigit(c: char) { '0' <= c <= '9' }

  function DigitValue(c: char): nat
    requires IsDigit(c)
  {
    (c as int) - ('0' as int)
  }

  function DigitChar(d: nat): (c: char)
    requires d < 10
    ensures IsDigit(c) && DigitValue(c) == d
  {
    (('0' as int) + d) as char
  }

  predicate AllDigits(s: string) { forall i :: 0 <= i < |s| ==> IsDigit(s[i]) }

  /** Value of a string of decimal digits, most significant digit first. */
  function DigitsValue(s: string): nat
    requires AllDigits(s)
  {
    if s == [] then 0 else DigitsValue(s[..|s| - 1]) * 10 + DigitValue(s[|s| - 1])
  }

  /** std::to_string of an unsigned value: decimal digits, no leading zero. */
  function NatToString(n: nat): (s: string)
    decreases n
  {
    if n < 10 then [DigitChar(n)] else NatToString(n / 10) + [DigitChar(n % 10)]
  }

  /** std::to_string of a signed value. */
  function IntToString(i: int): string
  {
    if i < 0 then "-" + NatToString(-i) else NatToString(i)
  }

  /** The rendering is a non-empty digit string without a leading zero that
      reads back as the number it renders. */
  lemma {:induction false} NatToStringDigits(n: nat)
    ensures 0 < |NatToString(n)|
    ensures AllDigits(NatToString(n))
    ensures DigitsValue(NatToString(n)) == n
    ensures |NatToString(n)| > 1 ==> NatToString(n)[0] != '0'
    decreases n
  {
    if n >= 10 {
      NatToStringDigits(n / 10);
      var s := NatToString(n / 10);
      var t := s + [DigitChar(n % 10)];
      assert t[..|t| - 1] == s;
    }
  }

  /** Small numbers render with few digits (used for dotted quads). */
  lemma {:induction false} NatToStringShort(n: nat)
    requires n < 1000
    ensures |NatToString(n)| <= 3
  {
    if n >= 10 {
      if n / 10 >= 10 {
        assert |NatToString(n / 10 / 10)| == 1;
        assert |NatToString(n / 10)| == 2;
      }
      assert |NatToString(n)| == |NatToString(n / 10)| + 1;
    }
  }

  // ---------------------------------------------------------------------
  // Joining with a separator

  /** The entries with `sep` between consecutive ones: no leading or trailing
      separator, and the empty list joins to the empty string. */
  function Join(sep: string, items: seq<string>): string
  {
    if |items| == 0 then ""
    else if |items| == 1 then items[0]
    else items[0] + sep + Join(sep, items[1..])
  }

  function Count<T(==)>(c: T, s: seq<T>): nat
  {
    if s == [] then 0 else (if s[0] == c then 1 else 0) + Count(c, s[1..])
  }

  function CountAll(c: char, items: seq<string>): nat
  {
    if items == [] then 0 else Count(c, items[0]) + CountAll(c, items[1..])
  }

  lemma {:induction false} CountAppend<T>(c: T, a: seq<T>, b: seq<T>)
    ensures Count(c, a + b) == Count(c, a) + Count(c, b)
  {
    if a != [] {
      assert (a + b)[1..] == a[1..] + b;
      CountAppend(c, a[1..], b);
    } else {
      assert a + b == b;
    }
  }

  /** Joining k >= 1 entries with "," adds exactly k - 1 commas to those the
      entries already hold. */
  lemma {:induction false} JoinCommaCount(items: seq<string>)
    requires |items| > 0
    ensures Count(',', Join(",", items)) == CountAll(',', items) + |items| - 1
  {
    if |items| > 1 {
      assert Join(",", items) == items[0] + ("," + Join(",", items[1..]));
      assert CountAll(',', items) == Count(',', items[0]) + CountAll(',', items[1..]);
      JoinCommaCount(items[1..]);
      CountAppend(',', items[0], "," + Join(",", items[1..]));
      CountAppend(',', ",", Join(",", items[1..]));
      assert Count(',', ",") == 1;
    } else {
      assert CountAll(',', items[1..]) == 0;
    }
  }

  /** Splitting at every occurrence of `sep`: the reference reading of a
      joined row. */
  function Split(sep: char, s: string): (r: seq<string>)
    ensures |r| > 0
  {
    if s == [] then [""]
    else
      var rest := Split(sep, s[1..]);
      if s[0] == sep then [""] + rest else [[s[0]] + rest[0]] + rest[1..]
  }

  lemma {:induction false} SplitNoSep(sep: char, a: string)
    requires Count(sep, a) == 0
    ensures Split(sep, a) == [a]
  {
    if a != [] {
      SplitNoSep(sep, a[1..]);
      assert [a[0]] + a[1..] == a;
    }
  }

  lemma {:induction false} SplitAtSep(sep: char, a: string, b: string)
    requires Count(sep, a) == 0
    ensures Split(sep, a + [sep] + b) == [a] + Split(sep, b)
  {
    if a == [] {
      assert a + [sep] + b == [sep] + b;
      assert (a + [sep] + b)[1..] == b;
    } else {
      assert (a + [sep] + b)[1..] == a[1..] + [sep] + b;
      SplitAtSep(sep, a[1..], b);
      assert [a[0]] + a[1..] == a;
    }
  }

  /** Entries free of the separator read back as the same entries: the join
      is unambiguous, so no entry is lost, merged or reordered. */
  lemma {:induction false} SplitJoin(sep: char, items: seq<string>)
    requires |items| > 0
    requires forall i :: 0 <= i < |items| ==> Count(sep, items[i]) == 0
    ensures Split(sep, Join([sep], items)) == items
  {
    if |items| == 1 {
      SplitNoSep(sep, items[0]);
    } else {
      SplitJoin(sep, items[1..]);
      SplitAtSep(sep, items[0], Join([sep], items[1..]));
    }
  }

  /** A digit string holds no separator character. */
  lemma {:induction false} DigitsHaveNo(c: char, s: string)
    requires AllDigits(s) && !IsDigit(c)
    ensures Count(c, s) == 0
  {
    if s != [] {
      DigitsHaveNo(c, s[1..]);
    }
  }
}
