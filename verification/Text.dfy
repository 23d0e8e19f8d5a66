/** The string operations of Go's strings and strconv packages that the ledger and the migration
    parser use. */
module Text {
  import opened Machine

  datatype Option<T> = None | Some(value: T)

  predicate HasPrefix(s: string, prefix: string) {
    prefix <= s
  }

  predicate HasSuffix(s: string, suffix: string) {
    |suffix| <= |s| && s[|s| - |suffix|..] == suffix
  }

  predicate Contains(s: string, sub: string) {
    sub <= s || (s != "" && Contains(s[1..], sub))
  }

  /** sub stands in s from i on. */
  ghost predicate StandsAt(s: string, sub: string, i: nat) {
    i + |sub| <= |s| && s[i..i + |sub|] == sub
  }

  lemma {:induction false} ContainsMeaning(s: string, sub: string)
    ensures Contains(s, sub) <==> exists i :: StandsAt(s, sub, i)
  {
    if sub <= s {
      assert StandsAt(s, sub, 0);
    } else if s != "" {
      ContainsMeaning(s[1..], sub);
      forall i: nat | StandsAt(s[1..], sub, i)
        ensures StandsAt(s, sub, i + 1)
      {
        assert s[i + 1..i + 1 + |sub|] == s[1..][i..i + |sub|];
      }
      forall i: nat | StandsAt(s, sub, i)
        ensures i > 0 && StandsAt(s[1..], sub, i - 1)
      {
        StandsLater(s, sub, i);
      }
    }
  }

  lemma StandsLater(s: string, sub: string, i: nat)
    requires StandsAt(s, sub, i) && !(sub <= s) && s != ""
    ensures i > 0 && StandsAt(s[1..], sub, i - 1)
  {
    if i > 0 {
      assert s[1..][i - 1..i - 1 + |sub|] == s[i..i + |sub|];
    }
  }

  function Count(s: string, c: char): nat {
    if s == "" then 0 else (if s[0] == c then 1 else 0) + Count(s[1..], c)
  }

  /** s without the characters that are not to be kept */
  function Filter(s: string, keep: char -> bool): string {
    if s == "" then ""
    else if keep(s[0]) then [s[0]] + Filter(s[1..], keep)
    else Filter(s[1..], keep)
  }

  /** strings.Split by a one-character separator */
  function Split(s: string, sep: char): (parts: seq<string>)
    ensures |parts| >= 1
  {
    if s == "" then [""]
    else
      var rest := Split(s[1..], sep);
      if s[0] == sep then [""] + rest else [[s[0]] + rest[0]] + rest[1..]
  }

  function Join(parts: seq<string>, sep: char): string {
    if parts == [] then ""
    else if |parts| == 1 then parts[0]
    else parts[0] + [sep] + Join(parts[1..], sep)
  }

  // ---------------------------------------------------------------------------------------
  // Decimal numbers

  predicate IsDigit(c: char) {
    '0' <= c <= '9'
  }

  predicate AllDigits(s: string) {
    forall i :: 0 <= i < |s| ==> IsDigit(s[i])
  }

  function DigitOf(d: int): char
    requires 0 <= d < 10
  {
    ('0' as int + d) as char
  }

  function NatOf(s: string): nat
    requires AllDigits(s)
  {
    if s == "" then 0
    else 10 * NatOf(s[..|s| - 1]) + (s[|s| - 1] as int - '0' as int)
  }

  /** strconv.ParseInt(s, 10, 64): an optional sign, then digits, within int64. */
  function ParseInt(s: string): Option<int64> {
    var negative := s != "" && s[0] == '-';
    var digits := if s != "" && (s[0] == '-' || s[0] == '+') then s[1..] else s;
    if digits == "" || !AllDigits(digits) then None
    else
      var n: int := NatOf(digits);
      var value := if negative then -n else n;
      if Fits(value) then Some(value) else None
  }

  function FormatNat(n: nat): string {
    if n < 10 then [DigitOf(n)] else FormatNat(n / 10) + [DigitOf(n % 10)]
  }

  /** fmt.Sprintf("%d", n) */
  function FormatInt(n: int): string {
    if n < 0 then "-" + FormatNat(-n) else FormatNat(n)
  }

  // ---------------------------------------------------------------------------------------
  // Lexicographic order

  predicate Less(a: string, b: string) {
    if b == "" then false
    else if a == "" then true
    else a[0] < b[0] || (a[0] == b[0] && Less(a[1..], b[1..]))
  }

  lemma {:induction false} LessTrichotomy(a: string, b: string)
    ensures Less(a, b) || Less(b, a) || a == b
    ensures !(Less(a, b) && Less(b, a)) && !(a == b && Less(a, b))
  {
    if a != "" && b != "" {
      LessTrichotomy(a[1..], b[1..]);
      assert a == [a[0]] + a[1..] && b == [b[0]] + b[1..];
    }
  }

  lemma {:induction false} LessTransitive(a: string, b: string, c: string)
    requires Less(a, b) && Less(b, c)
    ensures Less(a, c)
  {
    if a != "" {
      if a[0] == b[0] == c[0] {
        LessTransitive(a[1..], b[1..], c[1..]);
      }
    }
  }

  /** k is where a and b part, and a comes first there. */
  ghost predicate PartAt(a: string, b: string, k: nat) {
    k <= |a| && k < |b| && a[..k] == b[..k] && (k == |a| || a[k] < b[k])
  }

  /** The order of a dictionary: a is a proper prefix of b, or has the smaller character at the first difference. */
  ghost predicate Before(a: string, b: string) {
    exists k :: PartAt(a, b, k)
  }

  lemma PartAtStart(a: string, b: string, k: nat)
    requires PartAt(a, b, k)
    ensures k == 0 || (a != "" && b != "" && a[0] == b[0])
  {
    if k > 0 {
      assert a[0] == a[..k][0] && b[0] == b[..k][0];
    }
  }

  lemma {:induction false} LessIsBefore(a: string, b: string)
    ensures Less(a, b) <==> Before(a, b)
  {
    if a == "" || b == "" || a[0] != b[0] {
      assert Less(a, b) ==> PartAt(a, b, 0);
      forall k: nat | PartAt(a, b, k)
        ensures Less(a, b)
      {
        PartAtStart(a, b, k);
      }
    } else {
      LessIsBefore(a[1..], b[1..]);
      forall k: nat | PartAt(a[1..], b[1..], k)
        ensures PartAt(a, b, k + 1)
      {
        assert a[..k + 1] == [a[0]] + a[1..][..k] && b[..k + 1] == [b[0]] + b[1..][..k];
      }
      forall k: nat | PartAt(a, b, k)
        ensures k > 0 && PartAt(a[1..], b[1..], k - 1)
      {
        if k > 0 {
          assert a[1..][..k - 1] == a[..k][1..] && b[1..][..k - 1] == b[..k][1..];
        }
      }
    }
  }

  // ---------------------------------------------------------------------------------------
  // Splitting and joining are inverse

  predicate Free(s: string, c: char) {
    c !in s
  }

  lemma {:induction false} SplitFree(s: string, sep: char)
    requires Free(s, sep)
    ensures Split(s, sep) == [s]
  {
    if s != "" {
      assert s[0] in s && forall c :: c in s[1..] ==> c in s;
      SplitFree(s[1..], sep);
      assert s == [s[0]] + s[1..];
    }
  }

  lemma {:induction false} SplitFirst(head: string, tail: string, sep: char)
    requires Free(head, sep)
    ensures Split(head + [sep] + tail, sep) == [head] + Split(tail, sep)
  {
    var s := head + [sep] + tail;
    if head == "" {
      assert s[1..] == tail;
    } else {
      assert head[0] in head && forall c :: c in head[1..] ==> c in head;
      assert s[1..] == head[1..] + [sep] + tail;
      SplitFirst(head[1..], tail, sep);
      assert head == [head[0]] + head[1..];
      assert ([head[1..]] + Split(tail, sep))[1..] == Split(tail, sep);
    }
  }

  /** Joining parts that do not contain the separator loses nothing. */
  lemma {:induction false} SplitJoin(parts: seq<string>, sep: char)
    requires parts != [] && forall i :: 0 <= i < |parts| ==> Free(parts[i], sep)
    ensures Split(Join(parts, sep), sep) == parts
  {
    if |parts| == 1 {
      SplitFree(parts[0], sep);
    } else {
      SplitJoin(parts[1..], sep);
      SplitFirst(parts[0], Join(parts[1..], sep), sep);
    }
  }

  /** Splitting finds one part more than there are separators, and joining the parts restores s. */
  lemma {:induction false} JoinSplit(s: string, sep: char)
    ensures Join(Split(s, sep), sep) == s
    ensures |Split(s, sep)| == Count(s, sep) + 1
    ensures forall i :: 0 <= i < |Split(s, sep)| ==> Free(Split(s, sep)[i], sep)
  {
    if s != "" {
      JoinSplit(s[1..], sep);
      var rest := Split(s[1..], sep);
      if s[0] == sep {
        assert ([""] + rest)[1..] == rest;
        assert s == "" + [sep] + s[1..];
      } else if |rest| == 1 {
        assert s == [s[0]] + s[1..];
      } else {
        var parts := [[s[0]] + rest[0]] + rest[1..];
        assert parts[1..] == rest[1..];
        assert Join(parts, sep) == [s[0]] + (rest[0] + [sep] + Join(rest[1..], sep));
      }
    }
  }

  lemma {:induction false} FilterConcat(a: string, b: string, keep: char -> bool)
    ensures Filter(a + b, keep) == Filter(a, keep) + Filter(b, keep)
  {
    if a == "" {
      assert a + b == b;
    } else {
      assert (a + b)[1..] == a[1..] + b;
      FilterConcat(a[1..], b, keep);
    }
  }

  lemma {:induction false} FilterAll(s: string, keep: char -> bool)
    ensures (forall i :: 0 <= i < |s| ==> keep(s[i])) <==> Filter(s, keep) == s
    ensures |Filter(s, keep)| <= |s|
  {
    if s != "" {
      FilterAll(s[1..], keep);
      assert s == [s[0]] + s[1..];
      if Filter(s, keep) == s && keep(s[0]) {
        assert Filter(s[1..], keep) == s[1..];
        forall i | 0 <= i < |s|
          ensures keep(s[i])
        {
          if i > 0 {
            assert s[i] == s[1..][i - 1];
          }
        }
      }
      if forall i :: 0 <= i < |s| ==> keep(s[i]) {
        forall i | 0 <= i < |s[1..]|
          ensures keep(s[1..][i])
        {
          assert s[1..][i] == s[i + 1];
        }
      }
    }
  }

  // ---------------------------------------------------------------------------------------
  // Printing and parsing numbers are inverse

  lemma {:induction false} NatRoundTrip(n: nat)
    ensures AllDigits(FormatNat(n)) && |FormatNat(n)| >= 1 && NatOf(FormatNat(n)) == n
    ensures n > 0 ==> FormatNat(n)[0] != '0'
    ensures n == 0 ==> FormatNat(n) == "0"
  {
    var s := FormatNat(n);
    if n < 10 {
      assert s[..0] == "";
    } else {
      NatRoundTrip(n / 10);
      assert s[..|s| - 1] == FormatNat(n / 10);
    }
  }

  lemma {:induction false} NatLength(n: nat, k: nat)
    requires k >= 1 && n < Ten(k)
    ensures |FormatNat(n)| <= k
  {
    if n >= 10 {
      assert k >= 2 by {
        assert k == 1 ==> Ten(k) == 10;
      }
      assert n / 10 < Ten(k - 1);
      NatLength(n / 10, k - 1);
    }
  }

  function Ten(k: nat): nat {
    if k == 0 then 1 else 10 * Ten(k - 1)
  }

  /** Every int64 is printed in a form that parses back to it. */
  lemma IntRoundTrip(n: int64)
    ensures ParseInt(FormatInt(n)) == Some(n)
    ensures forall i :: 0 <= i < |FormatInt(n)| ==> IsDigit(FormatInt(n)[i]) || FormatInt(n)[i] == '-'
  {
    var m: int := n;
    var a := if m < 0 then -m else m;
    NatRoundTrip(a);
    if m < 0 {
      assert FormatInt(n)[1..] == FormatNat(a);
    } else {
      assert IsDigit(FormatNat(a)[0]);
    }
  }
}
