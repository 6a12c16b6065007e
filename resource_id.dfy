/// Resource identifiers: the three assignments in `main` that split a
/// 32-bit resource id into package id, type id and key (entry) id.
module ResourceId {

  /// The three fields of a resource id, in the order the source unpacks them.
  datatype Parts = Parts(pid: int, tid: int, kid: int)

  /// True when every field fits its bit width (8, 8 and 16 bits).
  predicate InRange(p: Parts)
  {
    0 <= p.pid < 0x100 && 0 <= p.tid < 0x100 && 0 <= p.kid < 0x1_0000
  }

  /// Packs the three fields back into one 32-bit id.
  function Compose(p: Parts): int
  {
    p.pid * 0x100_0000 + p.tid * 0x1_0000 + p.kid
  }

  /// `pid = (rid & 0xff000000) >> 24`, `tid = (rid & 0xff0000) >> 16`,
  /// `kid = rid & 0xffff` on an unbounded integer. Masking followed by a
  /// right shift is floor division and a non-negative remainder, which is
  /// what Dafny's `/` and `%` compute for a positive divisor, so this holds
  /// for negative ids and ids wider than 32 bits as well.
  function Decompose(rid: int): (p: Parts)
    ensures InRange(p)
    ensures 0 <= rid < 0x1_0000_0000 ==> Compose(p) == rid
  {
    Parts((rid / 0x100_0000) % 0x100, (rid / 0x1_0000) % 0x100, rid % 0x1_0000)
  }

  /// The other direction of the round trip: fields that fit their widths
  /// come back unchanged.
  lemma DecomposeCompose(p: Parts)
    requires InRange(p)
    ensures 0 <= Compose(p) < 0x1_0000_0000
    ensures Decompose(Compose(p)) == p
  {
    var rid := Compose(p);
    assert rid / 0x1_0000 == p.pid * 0x100 + p.tid;
    assert rid / 0x100_0000 == p.pid;
  }

  /// Bits above bit 31 never reach any field.
  lemma DecomposeIgnoresHighBits(rid: int)
    ensures Decompose(rid) == Decompose(rid % 0x1_0000_0000)
  {
    var q, low := rid / 0x1_0000_0000, rid % 0x1_0000_0000;
    assert rid == q * 0x1_0000_0000 + low;
    HighBitsIgnored(q, low);
  }

  /// Adding a multiple of 2^32 to an id changes none of its fields.
  lemma HighBitsIgnored(a: int, b: int)
    ensures Decompose(a * 0x1_0000_0000 + b) == Decompose(b)
  {
    var rid := a * 0x1_0000_0000 + b;
    assert rid == (a * 0x100) * 0x100_0000 + b;
    ShiftOut24(a * 0x100, b);
    ShiftOut8(a, b / 0x100_0000);
    assert rid == (a * 0x1_0000) * 0x1_0000 + b;
    ShiftOut16(a * 0x1_0000, b);
    ShiftOut8(a * 0x100, b / 0x1_0000);
  }

  lemma ShiftOut8(a: int, b: int)
    ensures (a * 0x100 + b) % 0x100 == b % 0x100
  {
  }

  lemma ShiftOut16(a: int, b: int)
    ensures (a * 0x1_0000 + b) / 0x1_0000 == a + b / 0x1_0000
    ensures (a * 0x1_0000 + b) % 0x1_0000 == b % 0x1_0000
  {
  }

  lemma ShiftOut24(a: int, b: int)
    ensures (a * 0x100_0000 + b) / 0x100_0000 == a + b / 0x100_0000
  {
  }
}
