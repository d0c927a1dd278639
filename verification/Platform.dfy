/** What the installer takes from the platform: error codes, leaves and panics,
    8-bit text, little-endian integers and case folding. */
module Platform {

  const ERR_NONE := 0
  const ERR_NOT_FOUND := -1
  const ERR_GENERAL := -2
  const ERR_CANCEL := -3
  const ERR_ARGUMENT := -6
  const ERR_OVERFLOW := -9
  const ERR_ALREADY_EXISTS := -11
  const ERR_CORRUPT := -20
  const ERR_PERMISSION_DENIED := -46
  const ERR_SAME_VERSION := -10309
  const ERR_NEWER_VERSION := -10310
  const ERR_UNSUPPORTED_LANGUAGE := -10317

  datatype Option<+T> = None | Some(value: T)

  /** How a step that does not return ends: it leaves with an error code, or it
      panics (an out-of-range descriptor access ends the server thread). */
  datatype Fault = Leave(code: int) | Panic

  datatype Outcome<+T> = Ok(value: T) | Fail(fault: Fault) {
    predicate IsFailure() {
      Fail?
    }

    function PropagateFailure<U>(): Outcome<U>
      requires Fail?
    {
      Fail(fault)
    }

    function Extract(): T
      requires Ok?
    {
      value
    }
  }

  /** A code unit of an 8-bit descriptor. Copying it to a 16-bit descriptor
      zero-extends it, so it is a char below 256. */
  type byte = c: char | (c as int) < 256 witness 'a'

  predicate IsInt32(n: int) {
    -0x8000_0000 <= n < 0x8000_0000
  }

  /** The k low base-256 digits of u, least significant first. */
  function LeDigits(u: nat, k: nat): (r: seq<byte>)
    ensures |r| == k
    decreases u, k
  {
    if k == 0 then [] else [(u % 256) as char] + LeDigits(u / 256, k - 1)
  }

  function FromLeDigits(b: seq<byte>): nat {
    if b == [] then 0 else b[0] as int + 256 * FromLeDigits(b[1..])
  }

  function Pow256(k: nat): nat {
    if k == 0 then 1 else 256 * Pow256(k - 1)
  }

  lemma {:induction false} LeDigitsRoundTrip(u: nat, k: nat)
    requires u < Pow256(k)
    ensures FromLeDigits(LeDigits(u, k)) == u
  {
    if k > 0 {
      assert Pow256(k) == 256 * Pow256(k - 1);
      LeDigitsRoundTrip(u / 256, k - 1);
      assert LeDigits(u, k)[1..] == LeDigits(u / 256, k - 1);
    }
  }

  lemma {:induction false} FromLeDigitsRoundTrip(b: seq<byte>)
    ensures FromLeDigits(b) < Pow256(|b|)
    ensures LeDigits(FromLeDigits(b), |b|) == b
  {
    if b != [] {
      FromLeDigitsRoundTrip(b[1..]);
      var u := FromLeDigits(b);
      assert u % 256 == b[0] as int && u / 256 == FromLeDigits(b[1..]);
      assert b == [b[0]] + b[1..];
    }
  }

  lemma Pow256Four()
    ensures Pow256(4) == 0x1_0000_0000
  {
    assert Pow256(1) == 256 && Pow256(2) == 0x1_0000 && Pow256(3) == 0x100_0000;
  }

  /** The four bytes of a 32-bit two's complement integer, least significant first. */
  function Le32(n: int): (r: seq<byte>)
    requires IsInt32(n)
    ensures |r| == 4
  {
    LeDigits(if n < 0 then n + 0x1_0000_0000 else n, 4)
  }

  /** The integer that four bytes or-ed together with shifts denote. */
  function FromLe32(b: seq<byte>): int
    requires |b| == 4
  {
    var u := FromLeDigits(b);
    if u >= 0x8000_0000 then u - 0x1_0000_0000 else u
  }

  lemma Le32RoundTrip(n: int)
    requires IsInt32(n)
    ensures FromLe32(Le32(n)) == n
  {
    Pow256Four();
    LeDigitsRoundTrip(if n < 0 then n + 0x1_0000_0000 else n, 4);
  }

  lemma FromLe32RoundTrip(b: seq<byte>)
    requires |b| == 4
    ensures IsInt32(FromLe32(b))
    ensures Le32(FromLe32(b)) == b
  {
    Pow256Four();
    FromLeDigitsRoundTrip(b);
  }

  /** Case folding of the file server, on ASCII letters. */
  function FoldChar(c: char): char {
    if 'A' <= c <= 'Z' then c + ' ' else c
  }

  function Fold(s: string): (r: string)
    ensures |r| == |s|
    ensures forall i :: 0 <= i < |s| ==> r[i] == FoldChar(s[i])
  {
    seq(|s|, i requires 0 <= i < |s| => FoldChar(s[i]))
  }

  /** Folding tells two names apart exactly if they differ in more than the case of
      letters. */
  lemma FoldMeans(a: string, b: string)
    ensures Fold(a) == Fold(b) <==> |a| == |b| && forall i :: 0 <= i < |a| ==> SameLetter(a[i], b[i])
  {
    if Fold(a) == Fold(b) {
      forall i | 0 <= i < |a| ensures SameLetter(a[i], b[i]) {
        assert FoldChar(a[i]) == Fold(b)[i] == FoldChar(b[i]);
        LetterCases(a[i], b[i]);
      }
    }
    if |a| == |b| && forall i :: 0 <= i < |a| ==> SameLetter(a[i], b[i]) {
      forall i | 0 <= i < |a| ensures Fold(a)[i] == Fold(b)[i] {
        LetterCases(a[i], b[i]);
      }
    }
  }

  /** The same character, or the two cases of a letter. */
  predicate SameLetter(a: char, b: char) {
    a == b || Cases(a, b) || Cases(b, a)
  }

  predicate Cases(lower: char, upper: char) {
    exists k :: 0 <= k < 26 && lower == ("abcdefghijklmnopqrstuvwxyz")[k] && upper == ("ABCDEFGHIJKLMNOPQRSTUVWXYZ")[k]
  }

  lemma CasesMean(a: char, b: char)
    ensures Cases(a, b) <==> 'A' <= b <= 'Z' && a as int == b as int + 32
  {
    Alphabet(a);
    Alphabet(b);
    if 'A' <= b <= 'Z' && a as int == b as int + 32 {
      var k := b as int - 'A' as int;
      assert a == ("abcdefghijklmnopqrstuvwxyz")[k] && b == ("ABCDEFGHIJKLMNOPQRSTUVWXYZ")[k];
    }
  }

  lemma LetterCases(a: char, b: char)
    ensures FoldChar(a) == FoldChar(b) <==> SameLetter(a, b)
  {
    CasesMean(a, b);
    CasesMean(b, a);
    hide Cases;
  }

  lemma Alphabet(c: char)
    ensures forall k :: 0 <= k < 26 ==> ("abcdefghijklmnopqrstuvwxyz")[k] as int == 'a' as int + k
    ensures forall k :: 0 <= k < 26 ==> ("ABCDEFGHIJKLMNOPQRSTUVWXYZ")[k] as int == 'A' as int + k
    ensures 'a' <= c <= 'z' ==> c == ("abcdefghijklmnopqrstuvwxyz")[c as int - 'a' as int]
    ensures 'A' <= c <= 'Z' ==> c == ("ABCDEFGHIJKLMNOPQRSTUVWXYZ")[c as int - 'A' as int]
  {
  }

  lemma FoldConcat(a: string, b: string)
    ensures Fold(a + b) == Fold(a) + Fold(b)
  {
  }

  /** The position just after the last c in s, or 0 when c does not occur. */
  function AfterLast(s: string, c: char): (k: nat)
    ensures k <= |s|
    ensures k > 0 ==> s[k - 1] == c
    ensures c !in s[k..]
  {
    if s == [] then 0
    else if s[|s| - 1] == c then |s|
    else
      var k := AfterLast(s[..|s| - 1], c);
      assert s[k..] == s[..|s| - 1][k..] + [s[|s| - 1]];
      k
  }

  lemma AfterLastUnique(s: string, c: char, k: nat)
    requires k <= |s| && c !in s[k..] && (k > 0 ==> s[k - 1] == c)
    ensures AfterLast(s, c) == k
  {
    var m := AfterLast(s, c);
    forall i | k <= i < |s| ensures s[i] != c {
      assert s[i] == s[k..][i - k];
    }
    forall i | m <= i < |s| ensures s[i] != c {
      assert s[i] == s[m..][i - m];
    }
  }
}
