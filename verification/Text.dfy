/** The string operations of Python that the scripts rely on: split, join, strip and the like. */
module Text {

  predicate Free(s: string, sep: char) { sep !in s }

  predicate AllFree(parts: seq<string>, sep: char) {
    forall i :: 0 <= i < |parts| ==> Free(parts[i], sep)
  }

  function Cons(c: char, parts: seq<string>, sep: char): seq<string>
    requires parts != []
  {
    if c == sep then [""] + parts else [[c] + parts[0]] + parts[1..]
  }

  /** s.split(sep): never empty. */
  function Split(s: string, sep: char): (parts: seq<string>)
    ensures parts != []
  {
    if s == [] then [""] else Cons(s[0], Split(s[1..], sep), sep)
  }

  /** sep.join(parts) */
  function Join(parts: seq<string>, sep: char): string {
    if parts == [] then ""
    else if |parts| == 1 then parts[0]
    else parts[0] + [sep] + Join(parts[1..], sep)
  }

  lemma {:induction false} SplitFree(s: string, sep: char)
    ensures AllFree(Split(s, sep), sep)
  {
    if s == [] {
    } else {
      SplitFree(s[1..], sep);
      var rest := Split(s[1..], sep);
      assert Free(rest[0], sep);
      forall i | 0 <= i < |Split(s, sep)| ensures Free(Split(s, sep)[i], sep) {
        if s[0] == sep {
          if i > 0 { assert Split(s, sep)[i] == rest[i - 1]; }
        } else if i > 0 {
          assert Split(s, sep)[i] == rest[i];
        }
      }
    }
  }

  lemma {:induction false} SplitOfFree(s: string, sep: char)
    requires Free(s, sep)
    ensures Split(s, sep) == [s]
  {
    if s == [] {
    } else {
      assert s == [s[0]] + s[1..];
      assert Free(s[1..], sep);
      SplitOfFree(s[1..], sep);
    }
  }

  /** Splitting distributes over a separator. */
  lemma {:induction false} SplitAppend(a: string, b: string, sep: char)
    ensures Split(a + [sep] + b, sep) == Split(a, sep) + Split(b, sep)
  {
    if a == [] {
      assert a + [sep] + b == [sep] + b;
      SplitStep([sep] + b, b, sep);
    } else {
      var t := a[1..] + [sep] + b;
      assert a + [sep] + b == [a[0]] + t;
      SplitStep(a + [sep] + b, t, sep);
      SplitStep(a, a[1..], sep);
      SplitAppend(a[1..], b, sep);
      ConsHead(a[0], Split(a[1..], sep), Split(b, sep), sep);
    }
  }

  lemma SplitStep(s: string, t: string, sep: char)
    requires s != [] && s[1..] == t
    ensures Split(s, sep) == Cons(s[0], Split(t, sep), sep)
  {
  }

  lemma ConsHead(c: char, a: seq<string>, b: seq<string>, sep: char)
    requires a != []
    ensures Cons(c, a + b, sep) == Cons(c, a, sep) + b
  {
    assert (a + b)[1..] == a[1..] + b;
  }

  lemma {:induction false} SplitJoin(parts: seq<string>, sep: char)
    requires parts != [] && AllFree(parts, sep)
    ensures Split(Join(parts, sep), sep) == parts
  {
    assert Free(parts[0], sep);
    SplitOfFree(parts[0], sep);
    if |parts| > 1 {
      assert AllFree(parts[1..], sep) by {
        forall i | 0 <= i < |parts[1..]| ensures Free(parts[1..][i], sep) { assert parts[1..][i] == parts[i + 1]; }
      }
      SplitJoin(parts[1..], sep);
      SplitAppend(parts[0], Join(parts[1..], sep), sep);
      assert parts == [parts[0]] + parts[1..];
    } else {
      assert parts == [parts[0]];
    }
  }

  /** Splitting undoes joining exactly for a non-empty list of parts without the separator. */
  lemma SplitUndoesJoin(parts: seq<string>, sep: char)
    ensures Split(Join(parts, sep), sep) == parts <==> parts != [] && AllFree(parts, sep)
  {
    SplitFree(Join(parts, sep), sep);
    if parts != [] && AllFree(parts, sep) { SplitJoin(parts, sep); }
  }

  lemma {:induction false} JoinSnoc(parts: seq<string>, x: string, sep: char)
    requires parts != []
    ensures Join(parts + [x], sep) == Join(parts, sep) + [sep] + x
  {
    if |parts| > 1 {
      assert (parts + [x])[1..] == parts[1..] + [x] && (parts + [x])[0] == parts[0];
      JoinSnoc(parts[1..], x, sep);
    } else {
      assert (parts + [x])[1..] == [x];
    }
  }

  lemma {:induction false} JoinFree(parts: seq<string>, sep: char, c: char)
    requires c != sep && AllFree(parts, c)
    ensures Free(Join(parts, sep), c)
  {
    if |parts| == 1 {
      assert Free(parts[0], c);
    } else if parts != [] {
      assert Free(parts[0], c);
      assert forall i :: 0 <= i < |parts[1..]| ==> parts[1..][i] == parts[i + 1];
      JoinFree(parts[1..], sep, c);
    }
  }

  lemma {:induction false} SplitKeepsFree(s: string, sep: char, c: char)
    requires Free(s, c)
    ensures AllFree(Split(s, sep), c)
  {
    if s == [] {
    } else {
      assert Free(s[1..], c) && s[0] != c;
      SplitKeepsFree(s[1..], sep, c);
      var rest, all := Split(s[1..], sep), Split(s, sep);
      assert Free(rest[0], c);
      forall i | 0 <= i < |all| ensures Free(all[i], c) {
        if s[0] == sep {
          if i > 0 { assert all[i] == rest[i - 1]; }
        } else if i > 0 {
          assert all[i] == rest[i];
        }
      }
    }
  }

  // ---------------------------------------------------------------- white space

  /** ASCII white space in the sense of str.isspace. */
  predicate IsSpace(c: char) {
    c == ' ' || '\t' <= c <= '\r' || '\U{1c}' <= c <= '\U{1f}'
  }

  predicate AllSpace(s: string) {
    forall i :: 0 <= i < |s| ==> IsSpace(s[i])
  }

  function StripLeft(s: string): (r: string)
    ensures |r| <= |s|
  {
    if s != [] && IsSpace(s[0]) then StripLeft(s[1..]) else s
  }

  function StripRight(s: string): (r: string)
    ensures |r| <= |s|
  {
    if s != [] && IsSpace(s[|s| - 1]) then StripRight(s[..|s| - 1]) else s
  }

  /** s.strip() */
  function Strip(s: string): string { StripRight(StripLeft(s)) }

  /** Neither starts nor ends with white space. */
  predicate Trimmed(s: string) {
    s != [] ==> !IsSpace(s[0]) && !IsSpace(s[|s| - 1])
  }

  lemma {:induction false} StripLeftPadding(pad: string, s: string)
    requires AllSpace(pad) && (s != [] ==> !IsSpace(s[0]))
    ensures StripLeft(pad + s) == s
  {
    if pad == [] {
      assert pad + s == s;
    } else {
      assert (pad + s)[0] == pad[0] && (pad + s)[1..] == pad[1..] + s;
      StripLeftPadding(pad[1..], s);
    }
  }

  lemma {:induction false} StripRightPadding(s: string, pad: string)
    requires AllSpace(pad) && (s != [] ==> !IsSpace(s[|s| - 1]))
    ensures StripRight(s + pad) == s
  {
    if pad == [] {
      assert s + pad == s;
    } else {
      var t := s + pad;
      assert t[|t| - 1] == pad[|pad| - 1] && t[..|t| - 1] == s + pad[..|pad| - 1];
      StripRightPadding(s, pad[..|pad| - 1]);
    }
  }

  /** Stripping removes exactly the padding around a trimmed text. */
  lemma StripPadding(before: string, s: string, after: string)
    requires AllSpace(before) && AllSpace(after) && Trimmed(s)
    ensures Strip(before + s + after) == s
  {
    if s == [] {
      assert before + s + after == (before + after) + [];
      StripLeftPadding(before + after, []);
    } else {
      assert before + s + after == before + (s + after);
      StripLeftPadding(before, s + after);
      StripRightPadding(s, after);
    }
  }

  lemma StripOfTrimmed(s: string)
    requires Trimmed(s)
    ensures Strip(s) == s
  {
    StripPadding([], s, []);
    assert [] + s + [] == s;
  }

  lemma {:induction false} StrippedLeft(s: string)
    ensures var n := |s| - |StripLeft(s)|; AllSpace(s[..n]) && StripLeft(s) == s[n..]
  {
    if s != [] && IsSpace(s[0]) {
      StrippedLeft(s[1..]);
      var n := |s| - |StripLeft(s)|;
      assert s[..n] == [s[0]] + s[1..][..n - 1] && s[n..] == s[1..][n - 1..];
    }
  }

  lemma {:induction false} StrippedRight(s: string)
    ensures var n := |StripRight(s)|; AllSpace(s[n..]) && StripRight(s) == s[..n]
  {
    if s != [] && IsSpace(s[|s| - 1]) {
      var t := s[..|s| - 1];
      StrippedRight(t);
      var n := |StripRight(s)|;
      assert s[n..] == t[n..] + [s[|s| - 1]] && s[..n] == t[..n];
    }
  }

  /** What stripping takes away is white space. */
  lemma StripParts(s: string) returns (before: string, after: string)
    ensures AllSpace(before) && AllSpace(after) && s == before + Strip(s) + after
  {
    var t := StripLeft(s);
    StrippedLeft(s);
    StrippedRight(t);
    before, after := s[..|s| - |t|], t[|StripRight(t)|..];
    assert t == Strip(s) + after;
  }

  // ---------------------------------------------------------------- prefixes, suffixes, digits

  predicate StartsWith(s: string, prefix: string) {
    |prefix| <= |s| && s[..|prefix|] == prefix
  }

  predicate EndsWith(s: string, suffix: string) {
    |suffix| <= |s| && s[|s| - |suffix|..] == suffix
  }

  predicate IsDigit(c: char) { '0' <= c <= '9' }

  predicate AllDigits(s: string) {
    forall i :: 0 <= i < |s| ==> IsDigit(s[i])
  }

  /** The number a run of digits denotes. */
  function NumberOf(digits: string): nat {
    if digits == [] then 0
    else
      var c := digits[|digits| - 1];
      NumberOf(digits[..|digits| - 1]) * 10 + if IsDigit(c) then (c - '0') as nat else 0
  }

  function Digit(d: nat): (c: char)
    requires d < 10
    ensures IsDigit(c) && (c - '0') as nat == d
  {
    '0' + d as char
  }

  /** str(n) */
  function Decimal(n: nat): (s: string)
    ensures s != [] && AllDigits(s)
  {
    if n < 10 then [Digit(n)] else Decimal(n / 10) + [Digit(n % 10)]
  }

  lemma {:induction false} NumberOfDecimal(n: nat)
    ensures NumberOf(Decimal(n)) == n
  {
    if n >= 10 {
      NumberOfDecimal(n / 10);
      var s := Decimal(n);
      assert s[..|s| - 1] == Decimal(n / 10) && s[|s| - 1] == Digit(n % 10);
    } else {
      assert [Digit(n)][..0] == [];
    }
  }
}
