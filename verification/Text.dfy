/** Text as bytes: decimal numbers (what `%d` prints and `strtol` and `atoi` read) and searching. */
module Text {
  import opened Msgpack

  const LONG_MAX: nat := 0x7FFF_FFFF_FFFF_FFFF

  predicate IsDigit(b: byte) { 48 <= b <= 57 }

  predicate IsSpace(b: byte) { b == 32 || 9 <= b <= 13 }

  /** `%d` of a number that is not negative. */
  function Digits(n: nat): (s: bytes)
    ensures |s| > 0 && forall i :: 0 <= i < |s| ==> IsDigit(s[i])
  {
    if n < 10 then [48 + n] else Digits(n / 10) + [48 + n % 10]
  }

  /** How many digits a text starts with. */
  function DigitRun(s: bytes): (k: nat)
    ensures k <= |s| && (forall i :: 0 <= i < k ==> IsDigit(s[i])) && (k < |s| ==> !IsDigit(s[k]))
  {
    if s == [] || !IsDigit(s[0]) then 0 else 1 + DigitRun(s[1..])
  }

  function Number(s: bytes): nat
    requires forall i :: 0 <= i < |s| ==> IsDigit(s[i])
  {
    if s == [] then 0 else assert IsDigit(s[|s| - 1]); Number(s[..|s| - 1]) * 10 + (s[|s| - 1] as int - 48)
  }

  function Trim(s: bytes): bytes {
    if s != [] && IsSpace(s[0]) then Trim(s[1..]) else s
  }

  function Leading(s: bytes): nat {
    Number(s[..DigitRun(s)])
  }

  /** `strtol(s, NULL, 10)` on the text up to its terminator, with a 64-bit long. */
  function Strtol(s: bytes): int {
    var t := Trim(s);
    if t != [] && t[0] == 45 then
      if Leading(t[1..]) > LONG_MAX + 1 then -(LONG_MAX as int) - 1 else -(Leading(t[1..]) as int)
    else
      var u := if t != [] && t[0] == 43 then t[1..] else t;
      if Leading(u) > LONG_MAX then LONG_MAX else Leading(u)
  }

  lemma {:induction false} NumberOfDigits(n: nat)
    ensures Number(Digits(n)) == n
  {
    if n < 10 {
      assert Digits(n)[..0] == [];
    } else {
      NumberOfDigits(n / 10);
      assert Digits(n)[..|Digits(n)| - 1] == Digits(n / 10);
    }
  }

  /** Digits are decimal, most significant first. */
  lemma Decimal(a: nat, b: nat, c: nat, d: nat)
    requires 0 < a < 10 && b < 10 && c < 10 && d < 10
    ensures Digits(1000 * a + 100 * b + 10 * c + d) == [48 + a, 48 + b, 48 + c, 48 + d]
  {
    var n := 1000 * a + 100 * b + 10 * c + d;
    assert n / 10 == 100 * a + 10 * b + c && n % 10 == d;
    assert n / 10 / 10 == 10 * a + b && n / 10 % 10 == c;
    assert n / 10 / 10 / 10 == a && n / 10 / 10 % 10 == b;
    assert Digits(a) == [48 + a];
    assert Digits(10 * a + b) == Digits(a) + [48 + b];
    assert Digits(n / 10) == Digits(10 * a + b) + [48 + c];
  }

  /** `strtol` passes over spaces and reads one sign, and `%d` writes one. */
  lemma Signs(n: nat)
    requires n <= LONG_MAX
    ensures Strtol(Ascii(" ") + Digits(n)) == n && Strtol(Ascii("+") + Digits(n)) == n
    ensures Strtol(Ascii("-") + Digits(n)) == -(n as int) && (n > 0 ==> PrintInt(-(n as int)) == Ascii("-") + Digits(n))
  {
    hide Digits, Number;
    var d := Digits(n);
    NumberOfDigits(n);
    RunOf(d, []);
    assert d + [] == d && d[..|d|] == d;
    assert Ascii(" ") == [32] && Ascii("+") == [43] && Ascii("-") == [45];
    assert ([32] + d)[1..] == d && ([43] + d)[1..] == d && ([45] + d)[1..] == d;
    assert Trim(d) == d;
  }

  /** Digits followed by anything else than a digit are read as one run. */
  lemma {:induction false} RunOf(d: bytes, rest: bytes)
    requires (forall i :: 0 <= i < |d| ==> IsDigit(d[i])) && (rest == [] || !IsDigit(rest[0]))
    ensures DigitRun(d + rest) == |d|
  {
    if d == [] {
      assert d + rest == rest;
    } else {
      assert (d + rest)[1..] == d[1..] + rest;
      RunOf(d[1..], rest);
    }
  }

  /** Reading back what was printed, whatever comes behind it. */
  lemma ReadsBack(n: nat, rest: bytes)
    requires rest == [] || !IsDigit(rest[0])
    ensures Strtol(Digits(n) + rest) == if n > LONG_MAX then LONG_MAX else n
  {
    hide Digits, Number;
    RunOf(Digits(n), rest);
    NumberOfDigits(n);
    assert (Digits(n) + rest)[0] == Digits(n)[0];
    assert (Digits(n) + rest)[..|Digits(n)|] == Digits(n);
  }

  const INT_MAX: nat := 0x7FFF_FFFF

  /** `atoi`: the result of strtol cut to 32 bits. */
  function Atoi(s: bytes): int {
    (Strtol(s) + INT_MAX + 1) % TWO32 - INT_MAX - 1
  }

  /** `%d`, with its sign. */
  function PrintInt(n: int): (s: bytes)
    ensures |s| > 0 && forall i :: 0 <= i < |s| ==> IsDigit(s[i]) || s[i] == 45
  {
    if n < 0 then [45] + Digits(-n) else Digits(n)
  }

  /** Printed digits without the last ones, read as a number. */
  lemma StrtolDigits(d: bytes)
    requires forall i :: 0 <= i < |d| ==> IsDigit(d[i])
    ensures Number(d) <= LONG_MAX ==> Strtol(d) == Number(d) && Strtol([45] + d) == -(Number(d) as int)
  {
    hide Number;
    RunOf(d, []);
    assert d + [] == d && d[..|d|] == d;
    assert ([45] + d)[1..] == d;
  }

  /** Every int is read back. */
  lemma AtoiReadsBack(n: int)
    requires -(INT_MAX as int) - 1 <= n <= INT_MAX
    ensures Atoi(PrintInt(n)) == n
  {
    hide Strtol, Digits, Number;
    var m := if n < 0 then -n else n;
    NumberOfDigits(m);
    StrtolDigits(Digits(m));
  }

  // ---------------------------------------------------------------- searching

  /** `memchr`: the first position of b, or the length. */
  function IndexOf(s: bytes, b: byte): (i: nat)
    ensures i <= |s| && (i < |s| ==> s[i] == b) && (forall j :: 0 <= j < i ==> s[j] != b)
  {
    if s == [] || s[0] == b then 0 else 1 + IndexOf(s[1..], b)
  }

  lemma IndexOfMore(s: bytes, more: bytes, b: byte)
    requires IndexOf(s, b) < |s|
    ensures IndexOf(s + more, b) == IndexOf(s, b)
  {
    var i := IndexOf(s, b);
    assert (s + more)[i] == b;
    assert forall j :: 0 <= j < i ==> (s + more)[j] == s[j];
  }

  /** The first line feed of a text without one, followed by one. */
  lemma IndexOfEnd(s: bytes, more: bytes, b: byte)
    requires b !in s
    ensures IndexOf(s + [b] + more, b) == |s|
  {
    var all := s + [b] + more;
    assert all[|s|] == b;
    assert forall j :: 0 <= j < |s| ==> all[j] == s[j];
  }

  /** `strchr` on a text without b, followed by b. */
  lemma IndexOfSep(s: bytes, b: byte, rest: bytes)
    requires b !in s
    ensures var all := s + [b] + rest;
            IndexOf(all, b) == |s| && all[..|s|] == s && all[|s| + 1..] == rest && |s| < |all|
  {
    IndexOfEnd(s, rest, b);
  }

  /** `strstr`: the first position of a pattern, or the length. */
  function Find(s: bytes, nd: bytes): (i: nat)
    ensures i <= |s| && (forall j :: 0 <= j < i ==> !(nd <= s[j..]))
    ensures i < |s| ==> nd <= s[i..]
  {
    if s == [] then 0
    else if nd <= s then 0
    else
      var i := Find(s[1..], nd);
      assert forall j :: 1 <= j <= |s| ==> s[j..] == s[1..][j - 1..];
      1 + i
  }
}
