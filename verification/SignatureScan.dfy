// enroll_config of externals/limine-binary/limine.c: a checksum is written into the boot loader file,
// behind a signature that a scan finds.
module SignatureScan {
  import opened Bytes
  import opened Options

  const CHECKSUM := 128
  // '0'
  const ZERO: byte := 48

  // "++CONFIG_B2SUM_SIGNATURE++"
  const SIGNATURE: seq<byte> := [43, 43, 67, 79, 78, 70, 73, 71, 95, 66, 50, 83, 85, 77, 95, 83, 73, 71, 78, 65,
                                 84, 85, 82, 69, 43, 43]

  datatype Result = BadChecksum | TooSmall | NotFound | Enrolled

  // '0' to '9', 'a' to 'f' and 'A' to 'F'
  predicate Hexadecimal(c: byte) {
    48 <= c <= 57 || 97 <= c <= 102 || 65 <= c <= 70
  }

  lemma HexadecimalIs(c: byte)
    ensures Hexadecimal(c) <==> c as int as char in "0123456789ABCDEFabcdef"
  {
    var digits := "0123456789ABCDEFabcdef";
    if Hexadecimal(c) {
      var i := if c <= 57 then c as int - 48 else if c <= 70 then c as int - 55 else c as int - 81;
      assert digits[i] == c as int as char;
    }
    if c as int as char in digits {
      var i :| 0 <= i < |digits| && digits[i] == c as int as char;
    }
  }

  lemma SignatureIs()
    ensures var text := "++CONFIG_B2SUM_SIGNATURE++";
      |SIGNATURE| == |text| && forall i :: 0 <= i < |text| ==> SIGNATURE[i] as int as char == text[i]
  {
  }

  predicate GoodChecksum(sum: seq<byte>) {
    |sum| == CHECKSUM && forall i :: 0 <= i < |sum| ==> Hexadecimal(sum[i])
  }

  predicate Occurs(b: seq<byte>, sig: seq<byte>, s: nat) {
    s + |sig| <= |b| && b[s..s + |sig|] == sig
  }

  // The scan looks at the indices below this one, and at no others.
  function Limit(size: nat, sigLen: nat): nat
    requires size >= sigLen + CHECKSUM
  {
    size - (sigLen + CHECKSUM) + 1
  }

  // An occurrence whose last byte is among those that are looked at
  predicate InReach(b: seq<byte>, sig: seq<byte>, s: nat)
    requires |b| >= |sig| + CHECKSUM
  {
    Occurs(b, sig, s) && s + |sig| <= Limit(|b|, |sig|)
  }

  ghost predicate Leftmost(b: seq<byte>, sig: seq<byte>, s: nat)
    requires |b| >= |sig| + CHECKSUM
  {
    InReach(b, sig, s) && forall t: nat :: t < s ==> !InReach(b, sig, t)
  }

  // One byte more of the candidate s matches.
  lemma Matches(b: seq<byte>, sig: seq<byte>, s: nat, n: nat)
    requires n < |sig| && s + n < |b| && b[s..s + n] == sig[..n] && b[s + n] == sig[n]
    ensures b[s..s + n + 1] == sig[..n + 1]
  {
    assert b[s..s + n + 1] == b[s..s + n] + [b[s + n]];
    assert sig[..n + 1] == sig[..n] + [sig[n]];
  }

  lemma Mismatch(b: seq<byte>, sig: seq<byte>, s: nat, n: nat)
    requires n < |sig| && s + n < |b| && b[s + n] != sig[n]
    ensures !Occurs(b, sig, s)
  {
    if s + |sig| <= |b| {
      assert b[s..s + |sig|][n] == b[s + n];
    }
  }

  // The index goes back to the candidate's first byte after a failed partial match.
  method Scan(b: array<byte>, sig: seq<byte>) returns (loc: Option<nat>)
    requires |sig| > 0 && b.Length >= |sig| + CHECKSUM
    ensures loc.Some? ==> loc.value >= |sig| && Leftmost(b[..], sig, loc.value - |sig|)
    ensures loc.None? ==> forall s: nat :: !InReach(b[..], sig, s)
  {
    hide Occurs;
    var checked := 0;
    var i := 0;
    while i < b.Length - (|sig| + CHECKSUM) + 1
      invariant 0 <= checked < |sig| && checked <= i <= Limit(b.Length, |sig|)
      invariant b[..][i - checked..i] == sig[..checked]
      invariant forall t: nat :: t < i - checked ==> !Occurs(b[..], sig, t)
      decreases Limit(b.Length, |sig|) - (i - checked), |sig| - checked
    {
      if b[i] != sig[checked] {
        Mismatch(b[..], sig, i - checked, checked);
        if checked > 0 {
          i := i - checked;
          checked := 0;
        }
        i := i + 1;
        continue;
      }
      Matches(b[..], sig, i - checked, checked);
      checked := checked + 1;
      if checked == |sig| {
        assert Occurs(b[..], sig, i + 1 - |sig|) by { Found(b[..], sig, i + 1 - |sig|); }
        return Some(i + 1);
      }
      i := i + 1;
    }
    return None;
  }

  lemma Found(b: seq<byte>, sig: seq<byte>, s: nat)
    requires s + |sig| <= |b| && b[s..s + |sig|] == sig[..|sig|]
    ensures Occurs(b, sig, s)
  {
  }

  // The checksum given is looked at before the file is.
  method CheckSum(sum: seq<byte>) returns (good: bool)
    ensures good <==> GoodChecksum(sum)
  {
    if |sum| != CHECKSUM {
      return false;
    }
    var i := 0;
    while i < CHECKSUM
      invariant 0 <= i <= CHECKSUM
      invariant forall j :: 0 <= j < i ==> Hexadecimal(sum[j])
    {
      var c := sum[i];
      if !((c >= 48 && c <= 57) || (c >= 97 && c <= 102) || (c >= 65 && c <= 70)) {
        return false;
      }
      i := i + 1;
    }
    return true;
  }

  // The file after the signature at s got its checksum
  function WithChecksum(b: seq<byte>, sigLen: nat, s: nat, sum: seq<byte>): (r: seq<byte>)
    requires s + sigLen + |sum| <= |b|
    ensures |r| == |b|
  {
    b[..s + sigLen] + sum + b[s + sigLen + |sum|..]
  }

  method PutSum(b: array<byte>, loc: nat, sum: seq<byte>)
    requires |sum| == CHECKSUM && loc + CHECKSUM <= b.Length
    modifies b
    ensures b[..] == WithChecksum(old(b[..]), 0, loc, sum)
  {
    var i := 0;
    while i < CHECKSUM
      invariant 0 <= i <= CHECKSUM
      invariant forall j :: 0 <= j < i ==> b[loc + j] == sum[j]
      invariant forall k :: 0 <= k < b.Length && !(loc <= k < loc + i) ==> b[k] == old(b[k])
    {
      b[loc + i] := sum[i];
      i := i + 1;
    }
  }

  // No checksum given means to reset it. The file is untouched unless r == Enrolled.
  method Enroll(b: array<byte>, sum: Option<seq<byte>>) returns (r: Result, ghost at: nat)
    modifies b
    ensures r == BadChecksum <==> sum.Some? && !GoodChecksum(sum.value)
    ensures r == TooSmall ==> b.Length < |SIGNATURE| + CHECKSUM
    ensures r == NotFound ==> b.Length >= |SIGNATURE| + CHECKSUM && forall s: nat :: !InReach(old(b[..]), SIGNATURE, s)
    ensures r == Enrolled ==>
      && b.Length >= |SIGNATURE| + CHECKSUM
      && Leftmost(old(b[..]), SIGNATURE, at)
      && at + |SIGNATURE| + CHECKSUM <= b.Length
      && b[..] == WithChecksum(old(b[..]), |SIGNATURE|, at, if sum.Some? then sum.value else Repeat(ZERO, CHECKSUM))
    ensures r == Enrolled ==>
      var loc := at + |SIGNATURE|;
      && (sum.Some? ==> b[loc..loc + 128] == sum.value)
      && (sum.None? ==> forall i :: loc <= i < loc + 128 ==> b[i] == 48)
      && b[..loc] == old(b[..loc]) && b[loc + 128..] == old(b[loc + 128..])
    ensures r != Enrolled ==> b[..] == old(b[..])
  {
    hide Leftmost, InReach;
    at := 0;
    if sum.Some? {
      var good := CheckSum(sum.value);
      if !good {
        return BadChecksum, at;
      }
    }
    if b.Length < |SIGNATURE| + CHECKSUM {
      return TooSmall, at;
    }
    ghost var before := b[..];
    var loc := Scan(b, SIGNATURE);
    assert before == b[..] == old(b[..]);
    if loc.None? {
      return NotFound, at;
    }
    at := loc.value - |SIGNATURE|;
    InReachHasRoom(b[..], SIGNATURE, at);
    PutSum(b, loc.value, if sum.Some? then sum.value else Repeat(ZERO, CHECKSUM));
    r := Enrolled;
  }

  // What the scan finds has room for the checksum, and even for another |sig| - 1 bytes.
  lemma InReachHasRoom(b: seq<byte>, sig: seq<byte>, s: nat)
    requires |b| >= |sig| + CHECKSUM && Leftmost(b, sig, s)
    ensures s + |sig| + CHECKSUM + (|sig| - 1) <= |b|
  {
  }

  // The checksum does not move the signature: the next scan finds the same place, so that enrolling
  // again, or resetting, leaves no trace of what was enrolled before.
  lemma EnrollAgain(b: seq<byte>, sig: seq<byte>, s: nat, sum: seq<byte>, sum': seq<byte>)
    requires |b| >= |sig| + CHECKSUM && Leftmost(b, sig, s) && |sum| == CHECKSUM == |sum'|
    requires s + |sig| + CHECKSUM <= |b|
    ensures Leftmost(WithChecksum(b, |sig|, s, sum), sig, s)
    ensures WithChecksum(WithChecksum(b, |sig|, s, sum), |sig|, s, sum') == WithChecksum(b, |sig|, s, sum')
  {
    var c := WithChecksum(b, |sig|, s, sum);
    forall t: nat | t <= s
      ensures InReach(c, sig, t) <==> InReach(b, sig, t)
    {
      assert c[t..t + |sig|] == b[t..t + |sig|];
    }
  }

  // A signature that leaves room for exactly one checksum is missed: the limit is that of a first
  // byte, but the index it is compared with is that of a last byte.
  lemma RoomIsNotEnough(sig: seq<byte>) returns (b: seq<byte>)
    requires |sig| >= 2
    ensures |b| == |sig| + CHECKSUM && Occurs(b, sig, 0)
    ensures forall s: nat :: !InReach(b, sig, s)
  {
    b := sig + Repeat(ZERO, CHECKSUM);
  }

  // The file of 154 bytes in which the boot loader's own signature is missed
  lemma SignatureMissed() returns (b: seq<byte>)
    ensures |b| == 154 && Occurs(b, SIGNATURE, 0) && forall s: nat :: !InReach(b, SIGNATURE, s)
  {
    b := RoomIsNotEnough(SIGNATURE);
  }

  // Exactly when the scan finds the first signature of a file, and when it finds nothing at all.
  lemma FoundIff(b: seq<byte>, sig: seq<byte>, s: nat)
    requires |b| >= |sig| + CHECKSUM && |sig| > 0
    requires Occurs(b, sig, s) && forall t: nat :: t < s ==> !Occurs(b, sig, t)
    ensures Leftmost(b, sig, s) <==> s + |sig| + CHECKSUM + (|sig| - 1) <= |b|
    ensures (forall t: nat :: !InReach(b, sig, t)) <==> s + |sig| + CHECKSUM + (|sig| - 1) > |b|
  {
    hide Occurs;
  }
}
