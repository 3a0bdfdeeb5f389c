/** The RSDT checksum and the search for the MADT. */
module Rsdt {
  import opened Bits

  function Sum(b: seq<Byte>): nat {
    if b == [] then 0 else Sum(b[..|b| - 1]) + b[|b| - 1]
  }

  /** A byte as `char`: signed. */
  function Signed(b: Byte): int {
    if b < 0x80 then b else b - 0x100
  }

  /** The sum adds up the bytes, each once. */
  lemma SumOf(b: seq<Byte>, x: Byte)
    ensures Sum([]) == 0 && Sum(b + [x]) == Sum(b) + x
  {
    assert (b + [x])[..|b|] == b;
  }

  /** Adding a byte as `char` or as unsigned makes no difference to an 8-bit sum. */
  lemma AddSigned(s: nat, b: Byte)
    ensures (s % 0x100 + Signed(b)) % 0x100 == (s + b) % 0x100
  {
    ModMultiple(s % 0x100 + b, s / 0x100, 0x100);
    ModMultiple(s % 0x100 + Signed(b), if b < 0x80 then 0 else 1, 0x100);
  }

  /** `rsdt_is_valid`; null stands for a missing table. */
  method IsValid(rsdt: array?<Byte>, length: nat) returns (valid: bool)
    requires rsdt != null ==> length <= rsdt.Length
    ensures valid <==> rsdt != null && Sum(rsdt[..length]) % 0x100 == 0
  {
    if rsdt == null { return false; }
    hide Sum, Signed;
    var sum: Byte := 0;
    SumOf([], 0);
    for i := 0 to length
      invariant sum == Sum(rsdt[..i]) % 0x100
    {
      assert rsdt[..i + 1] == rsdt[..i] + [rsdt[i]];
      SumOf(rsdt[..i], rsdt[i]);
      AddSigned(Sum(rsdt[..i]), rsdt[i]);
      sum := (sum + Signed(rsdt[i])) % 0x100;
    }
    return sum % 0x100 == 0;
  }

  lemma {:induction false} SumOfChange(b: seq<Byte>, i: nat, x: Byte)
    requires i < |b|
    ensures Sum(b[i := x]) == Sum(b) - b[i] + x
  {
    var last := |b| - 1;
    if i == last {
      assert b[i := x][..last] == b[..last];
    } else {
      SumOfChange(b[..last], i, x);
      assert b[i := x][..last] == b[..last][i := x];
    }
  }

  /** A valid table with any one byte changed is not valid. */
  lemma ChecksumDetectsChange(b: seq<Byte>, i: nat, x: Byte)
    requires i < |b| && Sum(b) % 0x100 == 0
    ensures Sum(b[i := x]) % 0x100 == 0 <==> x == b[i]
  {
    SumOfChange(b, i, x);
  }

  const APIC: seq<Byte> := [0x41, 0x50, 0x49, 0x43]

  /** `strncmp`: 1 when the first n bytes agree; it does not stop at a NUL. */
  method Strncmp(s1: array<Byte>, s2: seq<Byte>, n: nat) returns (same: bool)
    requires n <= s1.Length && n <= |s2|
    ensures same <==> s1[..n] == s2[..n]
  {
    var count := 0;
    while count < n
      invariant count <= n && s1[..count] == s2[..count]
    {
      if s1[count] != s2[count] {
        assert s1[..n][count] != s2[..n][count];
        return false;
      }
      count := count + 1;
    }
    return true;
  }

  /** `get_madt`: the first of the tables whose signature is APIC; |tables| stands for NULL. */
  method GetMadt(tables: seq<array<Byte>>) returns (k: nat)
    requires forall t :: t in tables ==> t.Length >= 4
    ensures k <= |tables|
    ensures k < |tables| ==> tables[k][..4] == [0x41, 0x50, 0x49, 0x43]
    ensures forall i :: 0 <= i < k ==> tables[i][..4] != [0x41, 0x50, 0x49, 0x43]
  {
    for i := 0 to |tables|
      invariant forall j :: 0 <= j < i ==> tables[j][..4] != APIC
    {
      var same := Strncmp(tables[i], APIC, 4);
      if same { return i; }
    }
    return |tables|;
  }
}
