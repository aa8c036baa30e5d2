/** The string operations the modelled programs share: decimal text, trimming and splitting. */
module Text {

  predicate IsDigit(c: char) {
    '0' <= c <= '9'
  }

  predicate AllDigits(s: string) {
    forall i :: 0 <= i < |s| ==> IsDigit(s[i])
  }

  /** The decimal text of a number, as string interpolation prints it. */
  function Dec(n: nat): string {
    if n < 10 then [('0' as int + n) as char] else Dec(n / 10) + [('0' as int + n % 10) as char]
  }

  /** The number a run of decimal digits denotes. */
  function Value(s: string): nat
    requires AllDigits(s)
  {
    if s == "" then 0 else 10 * Value(s[..|s| - 1]) + (s[|s| - 1] as int - '0' as int)
  }

  /** Reading the decimal text of a number gives the number back. */
  lemma {:induction false} DecRoundTrip(n: nat)
    ensures Dec(n) != "" && AllDigits(Dec(n)) && Value(Dec(n)) == n
    ensures Dec(n)[0] == '0' <==> n == 0
  {
    if n >= 10 {
      DecRoundTrip(n / 10);
      assert Dec(n)[..|Dec(n)| - 1] == Dec(n / 10);
    }
  }

  /** Digits with no leading zero are the decimal text of the number they denote. */
  lemma {:induction false} ValueRoundTrip(s: string)
    requires s != "" && AllDigits(s)
    requires s[0] == '0' ==> |s| == 1
    ensures Dec(Value(s)) == s
  {
    var last := |s| - 1;
    if last > 0 {
      ValueRoundTrip(s[..last]);
      LeadingDigitIsPositive(s[..last]);
      assert s == s[..last] + [s[last]];
    } else {
      assert s[..last] == "";
    }
  }

  lemma {:induction false} LeadingDigitIsPositive(s: string)
    requires s != "" && AllDigits(s) && s[0] != '0'
    ensures Value(s) >= 1
  {
    if |s| > 1 {
      LeadingDigitIsPositive(s[..|s| - 1]);
    }
  }

  /** What JavaScript's `trim` removes: white space and line terminators. */
  predicate IsSpace(c: char) {
    var n := c as int;
    9 <= n <= 13 || n == 32 || n == 0xa0 || n == 0x1680 || 0x2000 <= n <= 0x200a ||
    n == 0x2028 || n == 0x2029 || n == 0x202f || n == 0x205f || n == 0x3000 || n == 0xfeff
  }

  function TrimStart(s: string): (r: string)
    ensures |r| <= |s| && r == s[|s| - |r|..]
    ensures r != "" ==> !IsSpace(r[0])
    ensures forall i :: 0 <= i < |s| - |r| ==> IsSpace(s[i])
  {
    if s != "" && IsSpace(s[0]) then TrimStart(s[1..]) else s
  }

  function TrimEnd(s: string): (r: string)
    ensures |r| <= |s| && r == s[..|r|]
    ensures r != "" ==> !IsSpace(r[|r| - 1])
    ensures forall i :: |r| <= i < |s| ==> IsSpace(s[i])
  {
    if s != "" && IsSpace(s[|s| - 1]) then TrimEnd(s[..|s| - 1]) else s
  }

  function Trim(s: string): (r: string)
    ensures r != "" ==> !IsSpace(r[0]) && !IsSpace(r[|r| - 1])
  {
    TrimEnd(TrimStart(s))
  }

  /** Text that neither starts nor ends with white space survives trimming, a final newline added or not. */
  lemma TrimOfTrimmed(s: string)
    requires s != "" && !IsSpace(s[0]) && !IsSpace(s[|s| - 1])
    ensures Trim(s) == s && Trim(s + "\n") == s
  {
    assert TrimStart(s + "\n") == s + "\n";
    assert (s + "\n")[..|s|] == s;
  }

  /** Trimming text that starts with a trimmed head only cuts after the head. */
  lemma TrimKeepsHead(head: string, rest: string) returns (n: nat)
    requires head != "" && !IsSpace(head[0]) && !IsSpace(head[|head| - 1])
    ensures n <= |rest| && Trim(head + rest) == head + rest[..n]
  {
    var full := head + rest;
    assert full[0] == head[0];
    var kept := TrimEnd(full);
    assert full[|head| - 1] == head[|head| - 1];
    n := |kept| - |head|;
    assert kept == head + rest[..n];
  }

  /** The pieces of `s` between occurrences of `sep`, as `split` returns them. */
  function Split(s: string, sep: char): (parts: seq<string>)
    ensures |parts| >= 1
    ensures forall k :: 0 <= k < |parts| ==> sep !in parts[k]
  {
    if s == "" then [""]
    else if s[0] == sep then [""] + Split(s[1..], sep)
    else
      var rest := Split(s[1..], sep);
      [[s[0]] + rest[0]] + rest[1..]
  }

  function Join(parts: seq<string>, sep: char): string
    requires |parts| >= 1
  {
    if |parts| == 1 then parts[0] else parts[0] + [sep] + Join(parts[1..], sep)
  }

  lemma JoinOfPrefixed(c: char, parts: seq<string>, sep: char)
    requires |parts| >= 1
    ensures Join([[c] + parts[0]] + parts[1..], sep) == [c] + Join(parts, sep)
  {
    var longer := [[c] + parts[0]] + parts[1..];
    assert longer[1..] == parts[1..];
  }

  lemma {:induction false} JoinSplit(s: string, sep: char)
    ensures Join(Split(s, sep), sep) == s
  {
    if s != "" {
      JoinSplit(s[1..], sep);
      var rest := Split(s[1..], sep);
      assert s == [s[0]] + s[1..];
      if s[0] == sep {
        assert Split(s, sep)[1..] == rest;
      } else {
        JoinOfPrefixed(s[0], rest, sep);
      }
    }
  }

  /** Splitting joined pieces gives the pieces back, when no piece holds the separator. */
  lemma {:induction false} SplitJoin(parts: seq<string>, sep: char)
    requires |parts| >= 1
    requires forall k :: 0 <= k < |parts| ==> sep !in parts[k]
    ensures Split(Join(parts, sep), sep) == parts
    decreases |parts|, |parts[0]|
  {
    if parts[0] == "" {
      if |parts| > 1 {
        SplitJoin(parts[1..], sep);
        assert Join(parts, sep)[1..] == Join(parts[1..], sep);
        assert parts == [""] + parts[1..];
      }
    } else {
      var c := parts[0][0];
      var shorter := [parts[0][1..]] + parts[1..];
      assert forall k :: 0 <= k < |shorter| ==> sep !in shorter[k];
      SplitJoin(shorter, sep);
      assert parts[0] == [c] + shorter[0];
      assert parts == [[c] + shorter[0]] + shorter[1..];
      JoinOfPrefixed(c, shorter, sep);
      assert Join(parts, sep)[1..] == Join(shorter, sep);
    }
  }
}
