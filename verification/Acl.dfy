/** The IPv4 allowlist: fixed slots of masked networks, and exactly which addresses they admit. */
module AccessControl {
  import opened Wrappers
  import opened Numbers
  import opened Bits
  import opened Cidr

  const ACL_MAX_ENTRIES := 8

  datatype AclEntry = AclEntry(network: u32, mask: u32)

  predicate Contains(e: AclEntry, addr: u32) {
    And(addr, e.mask) == And(e.network, e.mask)
  }

  /** All ones in the leading `bits` of 32. */
  function Mask(bits: nat): u32
    requires bits <= 32
  {
    Pow2Monotone(32 - bits, 32);
    assert Pow2(32) == 0x1_0000_0000 by { Pow2Of32(); }
    if bits == 0 then 0 else Pow2(32) - Pow2(32 - bits)
  }

  function EntryOf(p: Prefix): AclEntry
    requires p.bits <= 32
  {
    AclEntry(Network(p), Mask(p.bits))
  }

  function Network(p: Prefix): u32 {
    p.a * 0x100_0000 + p.b * 0x1_0000 + p.c * 0x100 + p.d
  }

  /** The network address holds the four octets, the first on top. */
  lemma NetworkOctets(p: Prefix)
    ensures var n := Network(p);
            && n / 0x100_0000 == p.a && n / 0x1_0000 % 256 == p.b && n / 0x100 % 256 == p.c && n % 256 == p.d
  {
    var n := Network(p);
    var upper := p.a * 0x1_0000 + p.b * 0x100 + p.c;
    assert n == upper * 0x100 + p.d;
    QuotientIs(n, 0x100, upper, p.d);
    QuotientIs(n, 0x1_0000, p.a * 0x100 + p.b, p.c * 0x100 + p.d);
    QuotientIs(n, 0x100_0000, p.a, p.b * 0x1_0000 + p.c * 0x100 + p.d);
    LastOctet(upper, p.d);
    LastOctet(p.a * 0x100 + p.b, p.c);
    LastOctet(p.a, p.b);
  }

  lemma LastOctet(q: nat, r: u8)
    ensures (q * 0x100 + r) % 0x100 == r
  {
  }

  lemma NoBits(addr: u32)
    ensures And(addr, Mask(0)) == 0 && addr / Pow2(32) == 0
  {
    Pow2Of32();
  }

  /** An entry admits exactly the addresses that agree with its network on the leading bits. */
  lemma ContainsExactlyPrefix(p: Prefix, addr: u32)
    requires p.bits <= 32
    ensures Contains(EntryOf(p), addr) <==> addr / Pow2(32 - p.bits) == Network(p) / Pow2(32 - p.bits)
  {
    var network := Network(p);
    hide Pow2, And, Mask, Network;
    if p.bits == 0 {
      NoBits(addr);
      NoBits(network);
    } else {
      MaskedIsMultiple(addr, p.bits);
      MaskedIsMultiple(network, p.bits);
      SameMultiple(addr / Pow2(32 - p.bits), network / Pow2(32 - p.bits), Pow2(32 - p.bits));
    }
  }

  lemma MaskedIsMultiple(addr: u32, bits: nat)
    requires 0 < bits <= 32
    ensures And(addr, Mask(bits)) == addr / Pow2(32 - bits) * Pow2(32 - bits)
  {
    Pow2Of32();
    AndHighOnes(addr, 32, 32 - bits);
  }

  lemma SameMultiple(x: nat, y: nat, h: nat)
    requires h >= 1
    ensures x * h == y * h <==> x == y
  {
    if x < y {
      assert (x + 1) * h <= y * h;
    } else if y < x {
      assert (y + 1) * h <= x * h;
    }
  }

  /** What a list of entries admits; an empty list falls back to the default. */
  predicate Admits(entries: seq<AclEntry>, defaultAllow: bool, addr: u32) {
    if entries == [] then defaultAllow else exists e :: e in entries && Contains(e, addr)
  }

  /** An empty list gives its default; any other gives membership, whatever the default. */
  lemma AdmitsExactly(entries: seq<AclEntry>, defaultAllow: bool, addr: u32)
    ensures Admits(entries, defaultAllow, addr)
            <==> (entries == [] && defaultAllow) || exists i :: 0 <= i < |entries| && Contains(entries[i], addr)
  {
    hide Contains;
    if i :| 0 <= i < |entries| && Contains(entries[i], addr) {
      assert entries[i] in entries;
    }
  }

  class Acl {
    const entries: array<Option<AclEntry>>
    var len: nat
    const defaultAllow: bool

    ghost predicate Valid()
      reads this, entries
    {
      && entries.Length == ACL_MAX_ENTRIES && len <= ACL_MAX_ENTRIES
      && (forall i :: 0 <= i < entries.Length ==> (entries[i].Some? <==> i < len))
    }

    ghost function Contents(): (s: seq<AclEntry>)
      reads this, entries
      requires Valid()
    {
      seq(len, i requires 0 <= i < len && Valid() reads this, entries => entries[i].value)
    }

    constructor (defaultAllow: bool)
      ensures Valid() && fresh(entries) && Contents() == [] && this.defaultAllow == defaultAllow
    {
      entries := new Option<AclEntry>[ACL_MAX_ENTRIES](_ => None);
      len := 0;
      this.defaultAllow := defaultAllow;
    }

    /** Add a prefix in the first empty slot, unless the list is full. */
    method AddIpv4Cidr(p: Prefix) returns (ok: bool)
      requires Valid() && p.bits <= 32
      modifies this, entries
      ensures Valid()
      ensures ok <==> |old(Contents())| < 8
      ensures Contents() == if ok then old(Contents()) + [EntryOf(p)] else old(Contents())
    {
      if len >= ACL_MAX_ENTRIES {
        return false;
      }
      var slot := 0;
      while slot < entries.Length && entries[slot].Some?
        invariant slot <= len
      {
        slot := slot + 1;
      }
      assert slot == len;
      entries[slot] := Some(EntryOf(p));
      len := len + 1;
      ok := true;
    }

    method Allows(addr: u32) returns (ok: bool)
      requires Valid()
      ensures ok == Admits(Contents(), defaultAllow, addr)
    {
      if len == 0 {
        return defaultAllow;
      }
      for i := 0 to entries.Length
        invariant forall k :: 0 <= k < i && k < len ==> !Contains(Contents()[k], addr)
      {
        if entries[i].Some? && Contains(entries[i].value, addr) {
          assert Contents()[i] in Contents();
          return true;
        }
      }
      ok := false;
    }
  }

  // --- Presets ---

  const LOOPBACK := Prefix(127, 0, 0, 0, 8)
  const CLASS_A := Prefix(10, 0, 0, 0, 8)
  const CLASS_B := Prefix(172, 16, 0, 0, 12)
  const CLASS_C := Prefix(192, 168, 0, 0, 16)

  method PrivateLan() returns (acl: Acl)
    ensures acl.Valid() && fresh(acl) && fresh(acl.entries) && !acl.defaultAllow
    ensures acl.Contents() == [EntryOf(LOOPBACK), EntryOf(CLASS_A), EntryOf(CLASS_B), EntryOf(CLASS_C)]
  {
    hide EntryOf;
    acl := new Acl(false);
    var _ := acl.AddIpv4Cidr(LOOPBACK);
    var _ := acl.AddIpv4Cidr(CLASS_A);
    var _ := acl.AddIpv4Cidr(CLASS_B);
    var _ := acl.AddIpv4Cidr(CLASS_C);
  }

  /** The configured prefix alone; private networks when the text is empty or malformed. */
  method FromConfig(cidr: string) returns (acl: Acl)
    ensures acl.Valid() && fresh(acl) && fresh(acl.entries) && !acl.defaultAllow
    ensures acl.Contents() == match ParseCidr(cidr)
                              case Some(p) => [EntryOf(p)]
                              case None => [EntryOf(LOOPBACK), EntryOf(CLASS_A), EntryOf(CLASS_B), EntryOf(CLASS_C)]
  {
    match ParseCidr(cidr)
    case Some(p) =>
      acl := new Acl(false);
      var _ := acl.AddIpv4Cidr(p);
    case None =>
      acl := PrivateLan();
  }

  /** An aligned prefix admits one range of addresses. */
  lemma AdmitsRange(p: Prefix, addr: u32, size: nat, block: nat)
    requires 0 < p.bits <= 32 && size == Pow2(32 - p.bits) && Network(p) == block * size
    ensures Contains(EntryOf(p), addr) <==> block * size <= addr < (block + 1) * size
  {
    hide Contains, EntryOf, Network, Pow2;
    ContainsExactlyPrefix(p, addr);
    BlockOf(addr, size, block);
    QuotientIs(Network(p), size, block, 0);
  }

  lemma BlockOf(x: nat, size: nat, block: nat)
    requires size >= 1
    ensures x / size == block <==> block * size <= x < (block + 1) * size
  {
    InBlock(x, size, block, x / size, x % size);
  }

  lemma InBlock(x: nat, size: nat, block: nat, q: nat, r: nat)
    requires x == q * size + r && r < size
    ensures block * size <= x < (block + 1) * size <==> q == block
  {
    if q < block {
      assert (q + 1) * size <= block * size;
    } else if q > block {
      assert (block + 1) * size <= q * size;
    }
  }

  /** The preset admits 127/8, 10/8, 172.16/12 and 192.168/16 as address ranges, and nothing else. */
  lemma PrivateLanExactly(addr: u32)
    ensures Admits([EntryOf(LOOPBACK), EntryOf(CLASS_A), EntryOf(CLASS_B), EntryOf(CLASS_C)], false, addr)
            <==> || 0x7F00_0000 <= addr <= 0x7FFF_FFFF
                 || 0x0A00_0000 <= addr <= 0x0AFF_FFFF
                 || 0xAC10_0000 <= addr <= 0xAC1F_FFFF
                 || 0xC0A8_0000 <= addr <= 0xC0A8_FFFF
  {
    Pow2Of32();
    hide Contains, EntryOf, Pow2;
    AdmitsRange(LOOPBACK, addr, 0x100_0000, 0x7F);
    AdmitsRange(CLASS_A, addr, 0x100_0000, 0x0A);
    AdmitsRange(CLASS_B, addr, 0x10_0000, 0xAC1);
    AdmitsRange(CLASS_C, addr, 0x1_0000, 0xC0A8);
    var es := [EntryOf(LOOPBACK), EntryOf(CLASS_A), EntryOf(CLASS_B), EntryOf(CLASS_C)];
    assert es[0] in es && es[1] in es && es[2] in es && es[3] in es;
  }
}
