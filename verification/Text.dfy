/** Option values, and the few string operations that field paths are built from. */
module Text {

  datatype Option<+T> = None | Some(value: T)

  type Byte = b: int | 0 <= b < 256

  /** The position of the first `c` in `s`, or `|s|` when there is none. */
  function IndexOf(s: string, c: char): (i: nat)
    ensures i <= |s|
    ensures i < |s| ==> s[i] == c
  {
    if s == "" || s[0] == c then 0 else 1 + IndexOf(s[1..], c)
  }

  /** `s` cut at every `sep`. Like its Go counterpart, it yields one part more than there are separators. */
  function Split(s: string, sep: char): (parts: seq<string>)
    ensures |parts| >= 1
    decreases |s|
  {
    var i := IndexOf(s, sep);
    if i == |s| then [s] else [s[..i]] + Split(s[i + 1..], sep)
  }

  function Last<T>(s: seq<T>): T
    requires |s| > 0
  {
    s[|s| - 1]
  }

  function Front<T>(s: seq<T>): seq<T>
    requires |s| > 0
  {
    s[..|s| - 1]
  }

  predicate IsDigit(c: char) { '0' <= c <= '9' }

  predicate AllDigits(s: string) { forall i :: 0 <= i < |s| ==> IsDigit(s[i]) }

  /** Decimal rendering of a list index. */
  function Itoa(n: nat): (s: string)
    ensures s != "" && AllDigits(s)
  {
    var d := ('0' as int + n % 10) as char;
    if n < 10 then [d] else Itoa(n / 10) + [d]
  }

  /** The value of the leading run of digits of `s`, continuing from `acc`. */
  function ScanDigits(s: string, acc: nat): nat
  {
    if s == "" || !IsDigit(s[0]) then acc
    else ScanDigits(s[1..], 10 * acc + (s[0] as int - '0' as int))
  }

  /** What scanning `s` with the verb %d reads: optional blanks, an optional sign, then at least one digit. */
  function ScanInt(s: string): Option<int>
  {
    if s == "" then None
    else if s[0] == ' ' then ScanInt(s[1..])
    else if s[0] in "+-" then
      if |s| > 1 && IsDigit(s[1]) then Some((if s[0] == '-' then -1 else 1) * ScanDigits(s[1..], 0))
      else None
    else if IsDigit(s[0]) then Some(ScanDigits(s, 0))
    else None
  }

  lemma {:induction false} IndexOfAppend(s: string, t: string, c: char)
    ensures IndexOf(s + t, c) == if IndexOf(s, c) < |s| then IndexOf(s, c) else |s| + IndexOf(t, c)
  {
    if s == "" {
      assert s + t == t;
    } else {
      DropConcat(s, t, 1);
      IndexOfAppend(s[1..], t, c);
    }
  }

  lemma {:induction false} IndexOfAbsent(s: string, c: char)
    requires c !in s
    ensures IndexOf(s, c) == |s|
  {
    if s != "" {
      IndexOfAbsent(s[1..], c);
    }
  }

  lemma DropConcat<T>(a: seq<T>, b: seq<T>, k: nat)
    requires k <= |a|
    ensures (a + b)[k..] == a[k..] + b
  {
  }

  lemma TakeConcat<T>(a: seq<T>, b: seq<T>, k: nat)
    requires k <= |a|
    ensures (a + b)[..k] == a[..k]
  {
  }

  lemma Associate<T>(a: seq<T>, b: seq<T>, c: seq<T>)
    ensures a + b + c == a + (b + c)
  {
  }

  /** Splitting distributes over a separator. */
  lemma {:induction false} SplitAtSeparator(p: string, sep: char, q: string)
    ensures Split(p + [sep] + q, sep) == Split(p, sep) + Split(q, sep)
    decreases |p|
  {
    var s := p + [sep] + q;
    var i := IndexOf(p, sep);
    assert s == p + ([sep] + q) by { Associate(p, [sep], q); }
    IndexOfAppend(p, [sep] + q, sep);
    assert IndexOf([sep] + q, sep) == 0;
    assert IndexOf(s, sep) == i;
    assert s[..i] == p[..i];
    if i == |p| {
      assert s[i + 1..] == q;
      SplitByFirst(s, sep, p, q);
      assert Split(p, sep) == [p];
    } else {
      assert s[i + 1..] == p[i + 1..] + [sep] + q;
      SplitByFirst(s, sep, p[..i], p[i + 1..] + [sep] + q);
      SplitByFirst(p, sep, p[..i], p[i + 1..]);
      SplitAtSeparator(p[i + 1..], sep, q);
      Associate([p[..i]], Split(p[i + 1..], sep), Split(q, sep));
    }
  }

  lemma SplitByFirst(s: string, sep: char, first: string, rest: string)
    requires |first| < |s| && IndexOf(s, sep) == |first| && s[..|first|] == first && s[|first| + 1..] == rest
    ensures Split(s, sep) == [first] + Split(rest, sep)
  {
  }

  /** Text without a separator extends the last part only. */
  lemma {:induction false} SplitExtendsLast(p: string, sep: char, t: string)
    requires sep !in t
    ensures Split(p + t, sep) == Front(Split(p, sep)) + [Last(Split(p, sep)) + t]
    decreases |p|
  {
    IndexOfAppend(p, t, sep);
    IndexOfAbsent(t, sep);
    var i := IndexOf(p, sep);
    if i == |p| {
      assert Split(p + t, sep) == [p + t];
    } else {
      DropConcat(p, t, i + 1);
      TakeConcat(p, t, i);
      SplitExtendsLast(p[i + 1..], sep, t);
      SplitByFirst(p + t, sep, p[..i], p[i + 1..] + t);
      SplitByFirst(p, sep, p[..i], p[i + 1..]);
      LastOfRest(p[..i], Split(p[i + 1..], sep), t);
    }
  }

  lemma LastOfRest(first: string, rest: seq<string>, t: string)
    requires |rest| > 0
    ensures [first] + (Front(rest) + [Last(rest) + t]) == Front([first] + rest) + [Last([first] + rest) + t]
  {
  }

  lemma {:induction false} ScanDigitsAppend(s: string, d: char, acc: nat)
    requires AllDigits(s) && IsDigit(d)
    ensures ScanDigits(s + [d], acc) == 10 * ScanDigits(s, acc) + (d as int - '0' as int)
    decreases |s|
  {
    if s == "" {
      assert s + [d] == [d];
      assert [d][1..] == "";
    } else {
      assert (s + [d])[1..] == s[1..] + [d];
      ScanDigitsAppend(s[1..], d, 10 * acc + (s[0] as int - '0' as int));
    }
  }

  /** A rendered index reads back as the same index. */
  lemma {:induction false} ScanIntItoa(n: nat)
    ensures ScanInt(Itoa(n)) == Some(n)
  {
    ScanDigitsItoa(n);
    var s := Itoa(n);
    assert IsDigit(s[0]);
  }

  lemma {:induction false} ScanDigitsItoa(n: nat)
    ensures ScanDigits(Itoa(n), 0) == n
  {
    var d := ('0' as int + n % 10) as char;
    if n < 10 {
      assert Itoa(n) == [d];
      assert [d][1..] == "";
    } else {
      ScanDigitsItoa(n / 10);
      ScanDigitsAppend(Itoa(n / 10), d, 0);
    }
  }

  /** What was found so far, followed by the rest if there is one. */
  function Prepended<E>(entries: seq<E>, rest: Option<seq<E>>): Option<seq<E>> {
    match rest
    case None => None
    case Some(more) => Some(entries + more)
  }

  lemma PrependedNothing<E>(rest: Option<seq<E>>)
    ensures Prepended([], rest) == rest
  {
    if rest.Some? {
      assert [] + rest.value == rest.value;
    }
  }
}
