/** Text handling shared by the printers and their parsers: positions of
    characters, lines, prefixes and decimal numbers. */
module Text {
  import opened Prelude

  /** The position of the first `c` in `s`, or the length of `s`. */
  function IndexOf(s: string, c: char): (i: nat)
    ensures i <= |s| && c !in s[..i] && (i < |s| ==> s[i] == c)
  {
    if s == "" || s[0] == c then 0 else 1 + IndexOf(s[1..], c)
  }

  /** What stands before the first `c`. */
  function Before(s: string, c: char): string {
    s[..IndexOf(s, c)]
  }

  /** What stands after the first `c`. */
  function After(s: string, c: char): string {
    if IndexOf(s, c) < |s| then s[IndexOf(s, c) + 1..] else ""
  }

  lemma CutAt(a: string, c: char, b: string)
    requires c !in a
    ensures Before(a + ([c] + b), c) == a && After(a + ([c] + b), c) == b
  {
    var s := a + ([c] + b);
    var i := IndexOf(s, c);
    assert s[|a|] == c;
    assert forall k :: 0 <= k < |a| ==> s[k] == a[k];
    assert forall k :: 0 <= k < i ==> s[..i][k] == s[k];
  }

  lemma Regroup(a: string, b: string, c: string)
    ensures (a + b) + c == a + (b + c)
  {
  }

  /** `s` without the prefix `p`. */
  function Strip(p: string, s: string): Option<string> {
    if p <= s then Some(s[|p|..]) else None
  }

  /** `s` without the suffix `p`. */
  function StripEnd(s: string, p: string): Option<string> {
    if |p| <= |s| && s[|s| - |p|..] == p then Some(s[..|s| - |p|]) else None
  }

  lemma StripJoined(a: string, b: string)
    ensures Strip(a, a + b) == Some(b) && StripEnd(a + b, b) == Some(a)
  {
  }

  // ---------------------------------------------------------------------
  // Lines
  // ---------------------------------------------------------------------

  predicate OneLine(s: string) {
    '\n' !in s
  }

  lemma OneLineJoined(a: string, b: string)
    requires OneLine(a) && OneLine(b)
    ensures OneLine(a + b)
  {
  }

  /** Every line is followed by a newline. */
  function Unlines(ls: seq<string>): string {
    if ls == [] then "" else ls[0] + "\n" + Unlines(ls[1..])
  }

  function Lines(s: string): seq<string>
    decreases |s|
  {
    if s == "" then [] else [Before(s, '\n')] + Lines(After(s, '\n'))
  }

  lemma {:induction false} LinesOfUnlines(ls: seq<string>)
    requires forall l :: l in ls ==> OneLine(l)
    ensures Lines(Unlines(ls)) == ls
  {
    if ls != [] {
      assert OneLine(ls[0]);
      LinesOfUnlines(ls[1..]);
      CutAt(ls[0], '\n', Unlines(ls[1..]));
      Regroup(ls[0], "\n", Unlines(ls[1..]));
    }
  }

  /** The longest run of leading lines that start with `p`. */
  function Run(p: string, ls: seq<string>): seq<string> {
    if ls != [] && p <= ls[0] then [ls[0]] + Run(p, ls[1..]) else []
  }

  lemma {:induction false} RunOf(p: string, xs: seq<string>, rest: seq<string>)
    requires forall x :: x in xs ==> p <= x
    requires rest == [] || !(p <= rest[0])
    ensures Run(p, xs + rest) == xs
  {
    if xs == [] {
      assert xs + rest == rest;
    } else {
      assert forall x :: x in xs[1..] ==> x in xs;
      RunOf(p, xs[1..], rest);
      assert xs[0] in xs && (xs + rest)[0] == xs[0];
      assert (xs + rest)[1..] == xs[1..] + rest;
    }
  }

  /** A section: exactly the lines `head`, then the run of lines that start with
      `p`. Also returns the lines after it. */
  function Section(head: seq<string>, p: string, ls: seq<string>): Option<(seq<string>, seq<string>)> {
    if !(head <= ls) then None
    else
      var run := Run(p, ls[|head|..]);
      if |head| + |run| <= |ls| then Some((run, ls[|head| + |run|..])) else None
  }

  lemma SectionOf(head: seq<string>, p: string, xs: seq<string>, rest: seq<string>)
    requires forall x :: x in xs ==> p <= x
    requires rest == [] || !(p <= rest[0])
    ensures Section(head, p, head + (xs + rest)) == Some((xs, rest))
  {
    RunOf(p, xs, rest);
    assert (head + (xs + rest))[|head|..] == xs + rest;
    assert (head + (xs + rest))[|head| + |xs|..] == rest;
  }

  // ---------------------------------------------------------------------
  // Decimal numbers
  // ---------------------------------------------------------------------

  const DIGITS := "0123456789"

  function Decimal(n: nat): (s: string)
    ensures s != "" && forall c :: c in s ==> c in DIGITS
  {
    if n < 10 then [DIGITS[n]] else Decimal(n / 10) + [DIGITS[n % 10]]
  }

  /** The number a string of digits denotes. */
  function NatOf(s: string): nat {
    if s == "" then 0 else 10 * NatOf(DropLast(s)) + IndexOf(DIGITS, Last(s))
  }

  /** Decimal notation: the digits' values, and one more digit for each power of ten. */
  lemma DecimalSpelled(n: nat)
    ensures n < 10 ==> Decimal(n) == ["0", "1", "2", "3", "4", "5", "6", "7", "8", "9"][n]
    ensures n >= 10 ==> Decimal(n) == Decimal(n / 10) + Decimal(n % 10)
  {
  }

  lemma DigitsDiffer()
    ensures forall j, k :: 0 <= j < k < 10 ==> DIGITS[j] != DIGITS[k]
  {
  }

  lemma DigitAt(d: nat)
    requires d < 10
    ensures IndexOf(DIGITS, DIGITS[d]) == d
  {
    DigitsDiffer();
    var i := IndexOf(DIGITS, DIGITS[d]);
    assert forall k :: 0 <= k < i ==> DIGITS[..i][k] == DIGITS[k];
  }

  lemma NatOfMore(s: string, d: nat)
    requires d < 10
    ensures NatOf(s + [DIGITS[d]]) == 10 * NatOf(s) + d
  {
    DigitAt(d);
    assert DropLast(s + [DIGITS[d]]) == s;
  }

  lemma {:induction false} NatOfDecimal(n: nat)
    ensures NatOf(Decimal(n)) == n
  {
    if n < 10 {
      NatOfMore("", n);
      assert "" + [DIGITS[n]] == [DIGITS[n]];
    } else {
      NatOfDecimal(n / 10);
      NatOfMore(Decimal(n / 10), n % 10);
    }
  }

  /** A signed number, as Go's %d prints it. */
  function Signed(n: int): string {
    if n < 0 then "-" + Decimal(-n) else Decimal(n)
  }

  function IntOf(s: string): int {
    if s != "" && s[0] == '-' then -(NatOf(s[1..]) as int) else NatOf(s)
  }

  lemma IntOfSigned(n: int)
    ensures IntOf(Signed(n)) == n
  {
    NatOfDecimal(if n < 0 then -n else n);
    assert '-' !in DIGITS;
    if n >= 0 { assert Decimal(n)[0] in DIGITS; }
  }

  /** Decimal digits are none of the separators that the printers use. */
  lemma DecimalHasNo(n: nat, c: char)
    requires c !in DIGITS
    ensures c !in Decimal(n)
  {
  }
}
