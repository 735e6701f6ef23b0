/** The address field of the BLE advertisement (pega_ble/src/main.c): a dotted quad
    written as twelve digits by one scan from right to left. */
module AddressDigits {

  const CELLS := 12

  /** The cells the scan has used up after text t, from the right end of the field.  A
      character takes one; a dot rounds up to a whole octet while cells of the three
      right octets are in use, and does nothing afterwards. */
  function Used(t: string): nat {
    if t == "" then
      0
    else if t[0] == '.' then
      NextOctet(Used(t[1..]))
    else
      Used(t[1..]) + 1
  }

  function NextOctet(u: nat): nat {
    if u == 1 || u == 2 then 3
    else if u == 4 || u == 5 then 6
    else if u == 7 || u == 8 then 9
    else u
  }

  /** Every character of the text is written to a cell of the field. */
  predicate StaysInside(t: string) {
    t != "" ==> StaysInside(t[1..]) && (t[0] != '.' ==> 0 <= CELLS - 1 - Used(t[1..]))
  }

  /** When the scan stays inside the field: exactly for the texts that use at most twelve
      cells. */
  lemma {:induction false} InsideIffTwelve(t: string)
    ensures StaysInside(t) <==> Used(t) <= CELLS
  {
    if t != "" {
      InsideIffTwelve(t[1..]);
    }
  }

  /** A text without a dot takes a cell for each character. */
  lemma {:induction false} UsedByDigits(t: string)
    requires forall i :: 0 <= i < |t| ==> t[i] != '.'
    ensures Used(t) == |t|
  {
    if t != "" {
      UsedByDigits(t[1..]);
    }
  }

  /** An accepted length does not keep the scan inside: thirteen digits leave it. */
  lemma ThirteenDigitsOverrun()
    ensures var t := "1234567890123"; 7 <= |t| <= 15 && Used(t) == 13 && !StaysInside(t)
  {
    UsedByDigits("1234567890123");
    InsideIffTwelve("1234567890123");
  }

  /** The parts of a text between its dots. */
  function Parts(t: string): (p: seq<string>)
    ensures |p| >= 1
  {
    if t == "" then
      [""]
    else
      var p := Parts(t[1..]);
      if t[0] == '.' then [""] + p else [[t[0]] + p[0]] + p[1..]
  }

  predicate ShortParts(p: seq<string>) {
    forall i :: 0 <= i < |p| ==> |p[i]| <= 3
  }

  /** A guard to test before the call: at most four parts of at most three characters
      each, of any kind, always fit. */
  lemma ShortPartsFit(t: string)
    requires |Parts(t)| <= 4 && ShortParts(Parts(t))
    ensures Used(t) <= CELLS && StaysInside(t)
  {
    UsedByParts(t);
    InsideIffTwelve(t);
  }

  lemma {:induction false} UsedByParts(t: string)
    requires ShortParts(Parts(t))
    ensures Used(t) <= 3 * (|Parts(t)| - 1) + |Parts(t)[0]|
  {
    if t != "" {
      var p := Parts(t[1..]);
      assert p == [p[0]] + p[1..];
      assert forall i :: 0 <= i < |p| ==> |p[i]| <= |Parts(t)[if t[0] == '.' then i + 1 else i]|;
      UsedByParts(t[1..]);
    }
  }

  /** The field after the scan. */
  function Field(t: string): (f: string)
    requires Used(t) <= CELLS
    ensures |f| == CELLS
  {
    if t == "" then
      seq(CELLS, _ => '0')
    else if t[0] == '.' then
      Field(t[1..])
    else
      Field(t[1..])[CELLS - 1 - Used(t[1..]) := t[0]]
  }

  lemma {:induction false} UsedGrows(t: string, i: nat)
    requires i <= |t|
    ensures Used(t[i..]) <= Used(t)
    decreases i
  {
    if i == 0 {
      assert t[0..] == t;
    } else {
      UsedGrows(t[1..], i - 1);
      assert t[1..][i - 1..] == t[i..];
    }
  }

  /** The digit array of an address, or -1 for a text of the wrong length.  overrun: the
      code writes before the start of its array; the model goes no further then. */
  method AdvertisementDataUpdate(pStrIP: string) returns (rtn: int, bleadv: array<char>, overrun: bool)
    ensures fresh(bleadv) && bleadv.Length == CELLS
    ensures rtn == if 7 <= |pStrIP| <= 15 then 0 else -1
    ensures overrun <==> rtn == 0 && Used(pStrIP) > CELLS
    ensures rtn == 0 && !overrun ==> bleadv[..] == Field(pStrIP)
    ensures rtn == 0 ==> forall q :: ValidQuad(q) && Dotted(q) == pStrIP ==> !overrun && bleadv[..] == Digits(q)
  {
    bleadv := new char[CELLS](_ => 0 as char);
    var len := |pStrIP|;
    if len < 7 || len > 15 {
      return -1, bleadv, false;
    }
    forall k | 0 <= k < CELLS {
      bleadv[k] := '0';
    }
    overrun := PlaceDigits(pStrIP, bleadv);
    forall q | ValidQuad(q) && Dotted(q) == pStrIP ensures !overrun && bleadv[..] == Digits(q) {
      FieldOfQuad(q);
    }
    rtn := 0;
  }

  /** The scan.  j is where the next character goes. */
  method PlaceDigits(s: string, bleadv: array<char>) returns (overrun: bool)
    requires bleadv.Length == CELLS && forall x :: 0 <= x < CELLS ==> bleadv[x] == '0'
    modifies bleadv
    ensures overrun <==> Used(s) > CELLS
    ensures !overrun ==> bleadv[..] == Field(s)
  {
    var i, j := |s| - 1, 11;
    assert bleadv[..] == Field("");
    assert s[i + 1..] == "";
    while i > -1
      invariant -1 <= i < |s|
      invariant Used(s[i + 1..]) <= CELLS
      invariant j == CELLS - 1 - Used(s[i + 1..])
      invariant bleadv[..] == Field(s[i + 1..])
    {
      UsedGrows(s, i);
      assert s[i..][1..] == s[i + 1..];
      if s[i] == '.' {
        if j == 9 || j == 10 {
          j := 8;
        } else if j == 6 || j == 7 {
          j := 5;
        } else if j == 3 || j == 4 {
          j := 2;
        }
      } else {
        if j < 0 {
          return true;
        }
        bleadv[j] := s[i];
        j := j - 1;
      }
      i := i - 1;
    }
    assert s[0..] == s;
    overrun := false;
  }

  predicate Digit(c: char) {
    '0' <= c <= '9'
  }

  predicate Octet(o: string) {
    1 <= |o| <= 3 && forall i :: 0 <= i < |o| ==> Digit(o[i])
  }

  /** Four octets of one to three digits each. */
  predicate ValidQuad(q: seq<string>) {
    |q| == 4 && forall k :: 0 <= k < 4 ==> Octet(q[k])
  }

  /** The text from octet k on. */
  function DottedFrom(q: seq<string>, k: nat): string
    requires k < |q|
    decreases |q| - k
  {
    if k == |q| - 1 then q[k] else q[k] + ("." + DottedFrom(q, k + 1))
  }

  function Dotted(q: seq<string>): string
    requires |q| == 4
  {
    DottedFrom(q, 0)
  }

  function Pad(octet: string): (p: string)
    requires |octet| <= 3
    ensures |p| == 3
  {
    seq(3 - |octet|, _ => '0') + octet
  }

  /** The octets from k on side by side, zero-padded to three digits. */
  function PaddedFrom(q: seq<string>, k: nat): (d: string)
    requires ValidQuad(q) && k <= 4
    ensures |d| == 3 * (4 - k)
    decreases 4 - k
  {
    if k == 4 then "" else Pad(q[k]) + PaddedFrom(q, k + 1)
  }

  function Digits(q: seq<string>): (d: string)
    requires ValidQuad(q)
    ensures |d| == CELLS
  {
    PaddedFrom(q, 0)
  }

  function Zeros(n: nat): string {
    seq(n, _ => '0')
  }

  /** The characters of an octet go side by side in front of what is placed. */
  lemma {:induction false} PlaceOctet(o: string, t: string, n: nat, rest: string)
    requires forall i :: 0 <= i < |o| ==> o[i] != '.'
    requires n + |o| <= CELLS && Used(t) == CELLS - n - |o| && Field(t) == Zeros(n + |o|) + rest
    ensures Used(o + t) == CELLS - n && Field(o + t) == Zeros(n) + o + rest
    decreases |o|
  {
    if o == "" {
      assert o + t == t && Zeros(n) + o == Zeros(n);
    } else {
      PlaceOctet(o[1..], t, n + 1, rest);
      PlaceFirst(o, t, n, rest);
    }
  }

  lemma PlaceFirst(o: string, t: string, n: nat, rest: string)
    requires o != "" && o[0] != '.' && n < CELLS && Used(o[1..] + t) == CELLS - 1 - n
    requires Field(o[1..] + t) == Zeros(n + 1) + o[1..] + rest
    ensures Used(o + t) == CELLS - n && Field(o + t) == Zeros(n) + o + rest
  {
    assert (o + t)[1..] == o[1..] + t;
    PutFirst(n, o, rest);
  }

  lemma PutFirst(n: nat, o: string, rest: string)
    requires o != ""
    ensures (Zeros(n + 1) + o[1..] + rest)[n := o[0]] == Zeros(n) + o + rest
  {
  }

  /** From octet k on: the cells used, rounded up to a whole octet, hold the octets padded. */
  lemma {:induction false} FieldFrom(q: seq<string>, k: nat)
    requires ValidQuad(q) && k < 4
    ensures Used(DottedFrom(q, k)) == 3 * (3 - k) + |q[k]|
    ensures Field(DottedFrom(q, k)) == Zeros(3 * k) + PaddedFrom(q, k)
    decreases 4 - k
  {
    if k == 3 {
      assert q[3] + "" == q[3];
      PlaceFrom(q, 3, "");
    } else {
      FieldFrom(q, k + 1);
      var t := "." + DottedFrom(q, k + 1);
      assert t[1..] == DottedFrom(q, k + 1);
      PlaceFrom(q, k, t);
    }
  }

  /** Octet k in front of a text that ends at its octet's right edge. */
  lemma PlaceFrom(q: seq<string>, k: nat, t: string)
    requires ValidQuad(q) && k < 4 && Used(t) == 3 * (3 - k)
    requires Field(t) == Zeros(3 * (k + 1)) + PaddedFrom(q, k + 1)
    ensures Used(q[k] + t) == 3 * (3 - k) + |q[k]|
    ensures Field(q[k] + t) == Zeros(3 * k) + PaddedFrom(q, k)
  {
    PlaceOctet(q[k], t, 3 * k + 3 - |q[k]|, PaddedFrom(q, k + 1));
    Padding(3 * k, q[k], PaddedFrom(q, k + 1));
  }

  lemma Padding(n: nat, octet: string, rest: string)
    requires |octet| <= 3
    ensures Zeros(n + 3 - |octet|) + octet + rest == Zeros(n) + (Pad(octet) + rest)
  {
    assert Zeros(n + 3 - |octet|) == Zeros(n) + Zeros(3 - |octet|);
  }

  /** A dotted quad always fits, and its field is its four octets zero-padded. */
  lemma FieldOfQuad(q: seq<string>)
    requires ValidQuad(q)
    ensures Used(Dotted(q)) <= CELLS && Field(Dotted(q)) == Digits(q)
  {
    FieldFrom(q, 0);
    assert Zeros(0) + Digits(q) == Digits(q);
  }

  function DigitValue(c: char): nat
    requires Digit(c)
  {
    c as int - '0' as int
  }

  /** The number a digit string stands for. */
  function Value(s: string): nat
    requires forall i :: 0 <= i < |s| ==> Digit(s[i])
  {
    if s == "" then 0 else 10 * Value(s[..|s| - 1]) + DigitValue(s[|s| - 1])
  }

  function Values(q: seq<string>): seq<nat>
    requires ValidQuad(q)
  {
    [Value(q[0]), Value(q[1]), Value(q[2]), Value(q[3])]
  }

  predicate TwelveDigits(d: string) {
    |d| == 12 && forall i :: 0 <= i < 12 ==> Digit(d[i])
  }

  /** Reading the field back, three digits at a time. */
  function Decode(d: string): seq<nat>
    requires TwelveDigits(d)
  {
    [Value(d[0..3]), Value(d[3..6]), Value(d[6..9]), Value(d[9..12])]
  }

  lemma ValueOfThree(s: string)
    requires |s| == 3 && forall i :: 0 <= i < 3 ==> Digit(s[i])
    ensures Value(s) == 100 * DigitValue(s[0]) + 10 * DigitValue(s[1]) + DigitValue(s[2])
  {
    assert s[..2][..1][..0] == "";
    assert Value(s[..2][..1]) == DigitValue(s[0]);
    assert Value(s[..2]) == 10 * Value(s[..2][..1]) + DigitValue(s[1]);
  }

  lemma PadKeepsValue(octet: string)
    requires Octet(octet)
    ensures Value(Pad(octet)) == Value(octet)
  {
    ValueOfThree(Pad(octet));
    if |octet| == 1 {
      assert octet[..0] == "";
    } else if |octet| == 2 {
      assert octet[..1][..0] == "";
      assert Value(octet[..1]) == DigitValue(octet[0]);
    } else {
      assert Pad(octet) == octet;
    }
  }

  /** Round trip: the twelve digits read back as the four octets. */
  lemma DecodeDigits(q: seq<string>)
    requires ValidQuad(q)
    ensures TwelveDigits(Digits(q)) && Decode(Digits(q)) == Values(q)
  {
    DigitsAre(q);
    forall k | 0 <= k < 4 ensures Value(Pad(q[k])) == Value(q[k]) {
      PadKeepsValue(q[k]);
    }
  }

  lemma DigitsAre(q: seq<string>)
    requires ValidQuad(q)
    ensures var d := Digits(q);
            && TwelveDigits(d) && d == Pad(q[0]) + Pad(q[1]) + Pad(q[2]) + Pad(q[3])
            && d[0..3] == Pad(q[0]) && d[3..6] == Pad(q[1]) && d[6..9] == Pad(q[2]) && d[9..12] == Pad(q[3])
  {
    UnrollDigits(q);
    JoinFour(Pad(q[0]), Pad(q[1]), Pad(q[2]), Pad(q[3]));
    assert forall k :: 0 <= k < 4 ==> ThreeDigits(Pad(q[k]));
  }

  predicate ThreeDigits(p: string) {
    |p| == 3 && forall i :: 0 <= i < 3 ==> Digit(p[i])
  }

  lemma UnrollDigits(q: seq<string>)
    requires ValidQuad(q)
    ensures Digits(q) == Pad(q[0]) + (Pad(q[1]) + (Pad(q[2]) + Pad(q[3])))
  {
    assert PaddedFrom(q, 3) == Pad(q[3]) + PaddedFrom(q, 4) == Pad(q[3]);
    assert PaddedFrom(q, 2) == Pad(q[2]) + PaddedFrom(q, 3);
    assert PaddedFrom(q, 1) == Pad(q[1]) + PaddedFrom(q, 2);
  }

  lemma JoinFour(a: string, b: string, c: string, d: string)
    requires |a| == |b| == |c| == |d| == 3
    ensures a + (b + (c + d)) == a + b + c + d
    ensures var s := a + b + c + d; s[0..3] == a && s[3..6] == b && s[6..9] == c && s[9..12] == d
  {
  }

  lemma PadInjective(a: string, b: string)
    requires Octet(a)
    requires Octet(b)
    requires Value(a) == Value(b)
    ensures Pad(a) == Pad(b)
  {
    PadKeepsValue(a);
    PadKeepsValue(b);
    SameThree(Pad(a), Pad(b));
  }

  lemma SameThree(s: string, t: string)
    requires |s| == 3 && |t| == 3 && forall i :: 0 <= i < 3 ==> Digit(s[i]) && Digit(t[i])
    requires Value(s) == Value(t)
    ensures s == t
  {
    ValueOfThree(s);
    ValueOfThree(t);
    SameDigits(DigitValue(s[0]), DigitValue(s[1]), DigitValue(s[2]),
               DigitValue(t[0]), DigitValue(t[1]), DigitValue(t[2]));
  }

  lemma SameDigits(a: nat, b: nat, c: nat, x: nat, y: nat, z: nat)
    requires a < 10 && b < 10 && c < 10 && x < 10 && y < 10 && z < 10
    requires 100 * a + 10 * b + c == 100 * x + 10 * y + z
    ensures a == x && b == y && c == z
  {
  }

  /** Two addresses give the same field exactly when their octets are equal as numbers. */
  lemma SameFieldSameAddress(q: seq<string>, r: seq<string>)
    requires ValidQuad(q) && ValidQuad(r)
    ensures Digits(q) == Digits(r) <==> Values(q) == Values(r)
  {
    if Digits(q) == Digits(r) {
      SameField(q, r, Digits(q));
    } else if Values(q) == Values(r) {
      SameValues(q, r);
    }
  }

  lemma SameField(q: seq<string>, r: seq<string>, d: string)
    requires ValidQuad(q) && ValidQuad(r) && Digits(q) == d && Digits(r) == d
    ensures Values(q) == Values(r)
  {
    DecodeDigits(q);
    DecodeDigits(r);
  }

  lemma SameValues(q: seq<string>, r: seq<string>)
    requires ValidQuad(q) && ValidQuad(r) && Values(q) == Values(r)
    ensures Digits(q) == Digits(r)
  {
    forall i | 0 <= i < 4 ensures Value(q[i]) == Value(r[i]) {
      assert Values(q)[i] == Values(r)[i];
    }
    SamePadded(q, r, 0);
  }

  lemma {:induction false} SamePadded(q: seq<string>, r: seq<string>, k: nat)
    requires ValidQuad(q) && ValidQuad(r) && k <= 4
    requires forall i :: 0 <= i < 4 ==> Value(q[i]) == Value(r[i])
    ensures PaddedFrom(q, k) == PaddedFrom(r, k)
    decreases 4 - k
  {
    if k < 4 {
      PadInjective(q[k], r[k]);
      SamePadded(q, r, k + 1);
    }
  }

  /** A text is the dotted form of one quad only. */
  lemma DottedInjective(q: seq<string>, r: seq<string>)
    requires ValidQuad(q) && ValidQuad(r) && Dotted(q) == Dotted(r)
    ensures q == r
  {
    SameFrom(q, r, 0);
    assert forall k :: 0 <= k < 4 ==> q[k] == r[k];
  }

  lemma {:induction false} SameFrom(q: seq<string>, r: seq<string>, k: nat)
    requires ValidQuad(q) && ValidQuad(r) && k < 4 && DottedFrom(q, k) == DottedFrom(r, k)
    ensures forall i :: k <= i < 4 ==> q[i] == r[i]
    decreases 4 - k
  {
    if k < 3 {
      FirstOctet(q[k], DottedFrom(q, k + 1), r[k], DottedFrom(r, k + 1));
      SameFrom(q, r, k + 1);
    }
  }

  lemma FirstOctet(a: string, x: string, b: string, y: string)
    requires Octet(a) && Octet(b) && a + ("." + x) == b + ("." + y)
    ensures a == b && x == y
  {
    var t := a + ("." + x);
    assert t[|a|] == '.' && t[|b|] == (b + ("." + y))[|b|] == '.';
    assert forall i :: 0 <= i < |a| ==> t[i] == a[i];
    assert forall i :: 0 <= i < |b| ==> t[i] == b[i];
    assert |a| == |b|;
    assert t[..|a|] == a && (b + ("." + y))[..|b|] == b;
    assert t[|a| + 1..] == x && (b + ("." + y))[|b| + 1..] == y;
  }
}
