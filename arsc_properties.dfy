/// What the resolver promises: how pool entries and package names decode,
/// what the name maps hold, how the key ranges of a package tile its key
/// pool, and when a resource id resolves.
module ArscProperties {
  import opened PySeq
  import opened TextCodec
  import opened Arsc

  // ---------------------------------------------------------------------
  // Pool entries

  /// A UTF-8 pool entry is its two-byte prefix, the encoded text and a
  /// one-byte terminator; decoding gives the text back, NULs stripped.
  lemma Utf8EntryRoundTrip(head: seq<byte>, s: string, tail: seq<byte>)
    requires |head| == 2 && |tail| == 1
    ensures DecodeEntry(UTF8_FLAG, head + Utf8Encode(s) + tail) == Ok(StripNul(s))
  {
    SliceStripsEnvelope(head, Utf8Encode(s), tail);
    Utf8RoundTrip(s);
  }

  /// Any other flags word means UTF-16: a two-byte prefix, the encoded text
  /// and a two-byte terminator.
  lemma Utf16EntryRoundTrip(flags: nat, head: seq<byte>, s: string, tail: seq<byte>)
    requires flags != UTF8_FLAG && |head| == 2 && |tail| == 2
    requires !StartsLikeByteOrderMark(s)
    ensures DecodeEntry(flags, head + Utf16Encode(s) + tail) == Ok(StripNul(s))
  {
    SliceStripsEnvelope(head, Utf16Encode(s), tail);
    Utf16RoundTrip(s);
  }

  /// The same text stored in a UTF-8 pool and in a UTF-16 pool reads back
  /// the same.
  lemma SameTextInEitherPool(s: string, flags: nat, head8: seq<byte>, tail8: seq<byte>,
                             head16: seq<byte>, tail16: seq<byte>)
    requires flags != UTF8_FLAG && !StartsLikeByteOrderMark(s)
    requires |head8| == 2 && |tail8| == 1 && |head16| == 2 && |tail16| == 2
    ensures DecodeEntry(UTF8_FLAG, head8 + Utf8Encode(s) + tail8) ==
            DecodeEntry(flags, head16 + Utf16Encode(s) + tail16)
  {
    Utf8EntryRoundTrip(head8, s, tail8);
    Utf16EntryRoundTrip(flags, head16, s, tail16);
  }

  /// `t[2:-1]` and `t[2:-2]` are empty for entries too short to hold any
  /// text, which therefore decode to the empty string.
  lemma ShortEntryIsEmpty(flags: nat, t: seq<byte>)
    requires |t| <= (if flags == UTF8_FLAG then 3 else 4)
    ensures DecodeEntry(flags, t) == Ok([])
  {
    if flags == UTF8_FLAG {
      assert Slice(t, 2, -1) == [];
    } else {
      assert Slice(t, 2, -2) == [];
    }
  }

  // ---------------------------------------------------------------------
  // Package names

  predicate NulFree(s: string)
  {
    forall k | 0 <= k < |s| :: s[k] != NUL
  }

  /// The UTF-16 form of a non-NUL character holds no NUL code unit.
  lemma Utf16ScalarHasNoNulPair(c: char)
    requires c != NUL
    ensures forall j :: !IsNulPairAt(Utf16EncodeScalar(c), j)
  {
    var v := c as int;
    if v < 0x1_0000 {
      assert v == v / 0x100 * 0x100 + v % 0x100;
    }
  }

  /// Two buffers free of even-aligned NUL pairs, the first of even length,
  /// stay free of them when joined.
  lemma NoNulPairInConcat(a: seq<byte>, b: seq<byte>)
    requires |a| % 2 == 0
    requires forall j :: !IsNulPairAt(a, j)
    requires forall j :: !IsNulPairAt(b, j)
    ensures forall j :: !IsNulPairAt(a + b, j)
  {
    forall j | 0 <= j && j % 2 == 0 && j + 1 < |a + b|
      ensures !IsNulPairAt(a + b, j)
    {
      if j + 1 < |a| {
        assert !IsNulPairAt(a, j);
        assert (a + b)[j] == a[j] && (a + b)[j + 1] == a[j + 1];
      } else {
        assert !IsNulPairAt(b, j - |a|);
        assert (a + b)[j] == b[j - |a|] && (a + b)[j + 1] == b[j - |a| + 1];
      }
    }
  }

  /// The UTF-16 form of a NUL-free text has even length and no
  /// even-aligned pair of NUL bytes.
  lemma {:induction false} Utf16EncodeHasNoNulPair(s: string)
    requires NulFree(s)
    ensures |Utf16Encode(s)| % 2 == 0
    ensures forall j :: !IsNulPairAt(Utf16Encode(s), j)
  {
    if s != [] {
      var head, rest := Utf16EncodeScalar(s[0]), Utf16Encode(s[1..]);
      assert Utf16Encode(s) == head + rest;
      assert s[0] != NUL;
      Utf16EncodeHasNoNulPair(s[1..]);
      Utf16ScalarHasNoNulPair(s[0]);
      NoNulPairInConcat(head, rest);
    }
  }

  /// Appending to an even-length buffer free of NUL pairs creates none
  /// before the join.
  lemma NoNulPairBefore(a: seq<byte>, b: seq<byte>)
    requires |a| % 2 == 0
    requires forall j :: !IsNulPairAt(a, j)
    ensures forall j | j < |a| :: !IsNulPairAt(a + b, j)
  {
    forall j | 0 <= j && j + 1 < |a|
      ensures !IsNulPairAt(a + b, j)
    {
      assert !IsNulPairAt(a, j);
      assert (a + b)[j] == a[j] && (a + b)[j + 1] == a[j + 1];
    }
  }

  /// A package name field holding a NUL-free name, a two-byte NUL and any
  /// padding reads back as the name.
  lemma PackageNameRoundTrip(s: string, padding: seq<byte>)
    requires NulFree(s) && !StartsLikeByteOrderMark(s)
    ensures Utf16ToStr(Utf16Encode(s) + [0, 0] + padding) == Ok(s)
  {
    var e := Utf16Encode(s);
    var buf := e + [0, 0] + padding;
    Utf16EncodeHasNoNulPair(s);
    assert IsNulPairAt(buf, |e|);
    NoNulPairBefore(e, [0, 0] + padding);
    assert buf == e + ([0, 0] + padding);
    var k := FirstNulPair(buf).value;
    assert k == |e|;
    assert Slice(buf, 0, |e|) == e;
    Utf16RoundTrip(s);
  }

  // ---------------------------------------------------------------------
  // The package-name map

  /// No package from index `i` on carries `id`.
  predicate IdAbsentFrom(packages: seq<Package>, i: nat, id: int)
  {
    forall j | i <= j < |packages| :: packages[j].id != id
  }

  /// `packages[j]` is the last package carrying its id.
  predicate IsLastWithItsId(packages: seq<Package>, j: nat)
    requires j < |packages|
  {
    IdAbsentFrom(packages, j + 1, packages[j].id)
  }

  /// Every name from `i` on decodes.
  predicate NamesDecodeFrom(packages: seq<Package>, i: nat)
  {
    forall j | i <= j < |packages| :: Utf16ToStr(packages[j].name).Ok?
  }

  lemma {:induction false} CollectNamesFails(packages: seq<Package>, i: nat, acc: map<int, string>)
    requires i <= |packages|
    ensures CollectNames(packages, i, acc).Ok? <==> NamesDecodeFrom(packages, i)
    ensures CollectNames(packages, i, acc).Err? ==>
      exists j | i <= j < |packages| ::
        Utf16ToStr(packages[j].name) == Err(CollectNames(packages, i, acc).error) &&
        forall l | i <= l < j :: Utf16ToStr(packages[l].name).Ok?
    decreases |packages| - i
  {
    if i < |packages| {
      var name := Utf16ToStr(packages[i].name);
      if name.Ok? {
        var acc' := acc[packages[i].id := name.value];
        assert CollectNames(packages, i, acc) == CollectNames(packages, i + 1, acc');
        CollectNamesFails(packages, i + 1, acc');
        assert NamesDecodeFrom(packages, i) <==> NamesDecodeFrom(packages, i + 1);
        if CollectNames(packages, i + 1, acc').Err? {
          var e := CollectNames(packages, i + 1, acc').error;
          var j :| i + 1 <= j < |packages| && Utf16ToStr(packages[j].name) == Err(e) &&
            forall l | i + 1 <= l < j :: Utf16ToStr(packages[l].name).Ok?;
          assert forall l | i <= l < j :: Utf16ToStr(packages[l].name).Ok?;
        }
      } else {
        assert CollectNames(packages, i, acc) == Err(name.error);
        assert !NamesDecodeFrom(packages, i);
      }
    }
  }

  lemma {:induction false} CollectNamesKeys(packages: seq<Package>, i: nat, acc: map<int, string>)
    requires i <= |packages|
    requires CollectNames(packages, i, acc).Ok?
    ensures forall k :: k in CollectNames(packages, i, acc).value <==> k in acc || !IdAbsentFrom(packages, i, k)
    decreases |packages| - i
  {
    if i < |packages| {
      var p := packages[i];
      var acc' := acc[p.id := Utf16ToStr(p.name).value];
      CollectNamesKeys(packages, i + 1, acc');
      forall k
        ensures !IdAbsentFrom(packages, i, k) <==> k == p.id || !IdAbsentFrom(packages, i + 1, k)
      {
        if !IdAbsentFrom(packages, i, k) {
          var j :| i <= j < |packages| && packages[j].id == k;
        }
      }
    }
  }

  lemma {:induction false} CollectNamesValues(packages: seq<Package>, i: nat, acc: map<int, string>)
    requires i <= |packages|
    requires CollectNames(packages, i, acc).Ok?
    ensures var m := CollectNames(packages, i, acc).value;
      && (forall j | i <= j < |packages| && IsLastWithItsId(packages, j) ::
            packages[j].id in m && Utf16ToStr(packages[j].name) == Ok(m[packages[j].id]))
      && (forall k | k in acc && IdAbsentFrom(packages, i, k) :: k in m && m[k] == acc[k])
    decreases |packages| - i
  {
    if i < |packages| {
      var p := packages[i];
      var acc' := acc[p.id := Utf16ToStr(p.name).value];
      CollectNamesValues(packages, i + 1, acc');
      assert p.id in acc';
      assert IsLastWithItsId(packages, i) ==> IdAbsentFrom(packages, i + 1, p.id);
    }
  }

  /// `get_packages` succeeds exactly when every package name decodes; its
  /// keys are exactly the package ids, the name kept for an id is that of
  /// the last package carrying it, and a failure is the error of the first
  /// name that does not decode.
  lemma PackageNamesSpec(packages: seq<Package>)
    ensures var r := PackageNames(packages);
      && (r.Ok? <==> forall j | 0 <= j < |packages| :: Utf16ToStr(packages[j].name).Ok?)
      && (r.Ok? ==>
            && (forall k :: k in r.value <==> exists j | 0 <= j < |packages| :: packages[j].id == k)
            && (forall j | 0 <= j < |packages| && IsLastWithItsId(packages, j) ::
                  Utf16ToStr(packages[j].name) == Ok(r.value[packages[j].id])))
      && (r.Err? ==> exists j | 0 <= j < |packages| ::
            Utf16ToStr(packages[j].name) == Err(r.error) &&
            forall l | 0 <= l < j :: Utf16ToStr(packages[l].name).Ok?)
  {
    CollectNamesFails(packages, 0, map[]);
    if PackageNames(packages).Ok? {
      CollectNamesKeys(packages, 0, map[]);
      CollectNamesValues(packages, 0, map[]);
    }
  }

  // ---------------------------------------------------------------------
  // Numbered entries (type names and key names)

  /// Numbering the remaining entries fails exactly when one of them does
  /// not decode, and then with a decoding error.
  lemma {:induction false} DecodeFromFails(flags: nat, entries: seq<seq<byte>>, base: int, i: nat,
                                           acc: map<int, string>)
    requires i <= |entries|
    ensures DecodeFrom(flags, entries, base, i, acc).Ok? <==>
      forall j | i <= j < |entries| :: DecodeEntry(flags, entries[j]).Ok?
    ensures DecodeFrom(flags, entries, base, i, acc).Err? ==>
      DecodeFrom(flags, entries, base, i, acc).error == DecodeFailed
    decreases |entries| - i
  {
    if i < |entries| {
      match DecodeEntry(flags, entries[i])
      case Err(e) =>
        assert DecodeFrom(flags, entries, base, i, acc) == Err(e);
      case Ok(s) =>
        var acc' := acc[base + i := s];
        assert DecodeFrom(flags, entries, base, i, acc) == DecodeFrom(flags, entries, base, i + 1, acc');
        DecodeFromFails(flags, entries, base, i + 1, acc');
    }
  }

  /// Numbering the remaining entries adds exactly the keys `base + i` and
  /// up to the map it starts from.
  lemma {:induction false} DecodeFromKeys(flags: nat, entries: seq<seq<byte>>, base: int, i: nat,
                                          acc: map<int, string>)
    requires i <= |entries|
    requires DecodeFrom(flags, entries, base, i, acc).Ok?
    ensures forall t :: t in DecodeFrom(flags, entries, base, i, acc).value <==>
      t in acc || base + i <= t < base + |entries|
    decreases |entries| - i
  {
    if i < |entries| {
      var s := DecodeEntry(flags, entries[i]).value;
      var acc' := acc[base + i := s];
      assert DecodeFrom(flags, entries, base, i, acc) == DecodeFrom(flags, entries, base, i + 1, acc');
      DecodeFromKeys(flags, entries, base, i + 1, acc');
    }
  }

  /// Numbering the remaining entries leaves every key of the map it
  /// starts from that lies outside `base + i ..` alone.
  lemma {:induction false} DecodeFromKeeps(flags: nat, entries: seq<seq<byte>>, base: int, i: nat,
                                           acc: map<int, string>)
    requires i <= |entries|
    requires DecodeFrom(flags, entries, base, i, acc).Ok?
    ensures var m := DecodeFrom(flags, entries, base, i, acc).value;
      forall t | t in acc && !(base + i <= t < base + |entries|) :: t in m && m[t] == acc[t]
    decreases |entries| - i
  {
    if i < |entries| {
      var s := DecodeEntry(flags, entries[i]).value;
      var acc' := acc[base + i := s];
      assert DecodeFrom(flags, entries, base, i, acc) == DecodeFrom(flags, entries, base, i + 1, acc');
      DecodeFromKeeps(flags, entries, base, i + 1, acc');
    }
  }

  /// Numbering the remaining entries maps key `t` in `base + i ..` to
  /// entry `t - base` decoded.
  lemma {:induction false} DecodeFromValues(flags: nat, entries: seq<seq<byte>>, base: int, i: nat,
                                            acc: map<int, string>)
    requires i <= |entries|
    requires DecodeFrom(flags, entries, base, i, acc).Ok?
    ensures var m := DecodeFrom(flags, entries, base, i, acc).value;
      forall t | base + i <= t < base + |entries| :: t in m && DecodeEntry(flags, entries[t - base]) == Ok(m[t])
    decreases |entries| - i
  {
    if i < |entries| {
      var s := DecodeEntry(flags, entries[i]).value;
      var acc' := acc[base + i := s];
      assert DecodeFrom(flags, entries, base, i, acc) == DecodeFrom(flags, entries, base, i + 1, acc');
      DecodeFromValues(flags, entries, base, i + 1, acc');
      DecodeFromKeeps(flags, entries, base, i + 1, acc');
      var m := DecodeFrom(flags, entries, base, i + 1, acc').value;
      forall t | base + i <= t < base + |entries|
        ensures t in m && DecodeEntry(flags, entries[t - base]) == Ok(m[t])
      {
        if t == base + i {
          assert t in acc' && m[t] == s;
        }
      }
    }
  }

  /// The numbered map succeeds exactly when every entry decodes; its keys
  /// are exactly `base .. base + |entries| - 1` and key `t` holds entry
  /// `t - base` decoded.
  lemma DecodeEntriesSpec(flags: nat, entries: seq<seq<byte>>, base: int)
    ensures var r := DecodeEntries(flags, entries, base);
      && (r.Ok? <==> forall j | 0 <= j < |entries| :: DecodeEntry(flags, entries[j]).Ok?)
      && (r.Ok? ==> forall t :: t in r.value <==> base <= t < base + |entries|)
      && (r.Ok? ==> forall t | base <= t < base + |entries| :: DecodeEntry(flags, entries[t - base]) == Ok(r.value[t]))
      && (r.Err? ==> r.error == DecodeFailed)
  {
    DecodeFromFails(flags, entries, base, 0, map[]);
    if DecodeEntries(flags, entries, base).Ok? {
      DecodeFromKeys(flags, entries, base, 0, map[]);
      DecodeFromValues(flags, entries, base, 0, map[]);
      DecodeFromKeeps(flags, entries, base, 0, map[]);
    }
  }

  /// One key of a numbered map: it is in range and holds its entry decoded.
  lemma DecodedEntryAt(flags: nat, entries: seq<seq<byte>>, base: int, t: int)
    requires DecodeEntries(flags, entries, base).Ok? && t in DecodeEntries(flags, entries, base).value
    ensures base <= t < base + |entries|
    ensures DecodeEntry(flags, entries[t - base]) == Ok(DecodeEntries(flags, entries, base).value[t])
  {
    DecodeEntriesSpec(flags, entries, base);
    var j := t - base;
    assert base + j == t;
  }

  // ---------------------------------------------------------------------
  // Key ranges

  lemma {:induction false} KeyStartMonotonic(types: seq<seq<TypeSpecHeader>>, m: nat, n: nat)
    requires m <= n <= |types| && forall i | 0 <= i < n :: types[i] != []
    ensures KeyStart(types, m) <= KeyStart(types, n)
    decreases n
  {
    if m < n {
      KeyStartMonotonic(types, m, n - 1);
    }
  }

  /// One type's range ends where the next type's begins.
  lemma KeyRangesAdjacent(types: seq<seq<TypeSpecHeader>>, tid: int)
    requires 1 <= tid && HasTypeSpecs(types, tid + 1)
    ensures KeyRange(types, tid).1 == KeyRange(types, tid + 1).0
  {
  }

  /// Ranges of different types never overlap, and come in type-id order.
  lemma KeyRangesOrdered(types: seq<seq<TypeSpecHeader>>, t1: int, t2: int)
    requires 1 <= t1 < t2 && HasTypeSpecs(types, t2)
    ensures KeyRange(types, t1).1 <= KeyRange(types, t2).0
  {
    KeyStartMonotonic(types, t1, t2 - 1);
  }

  /// The ranges of types `1..n` cover `[0, KeyStart(types, n))` with no
  /// gap: every key index below it belongs to one of them.
  lemma {:induction false} KeyRangesCover(types: seq<seq<TypeSpecHeader>>, n: nat, x: nat)
    requires n <= |types| && forall i | 0 <= i < n :: types[i] != []
    requires x < KeyStart(types, n)
    ensures exists t | 1 <= t <= n :: KeyRange(types, t).0 <= x < KeyRange(types, t).1
  {
    assert n > 0;
    if x < KeyStart(types, n - 1) {
      KeyRangesCover(types, n - 1, x);
      var t :| 1 <= t <= n - 1 && KeyRange(types, t).0 <= x < KeyRange(types, t).1;
      assert HasTypeSpecs(types, t);
    } else {
      assert HasTypeSpecs(types, n);
      assert KeyRange(types, n).0 <= x < KeyRange(types, n).1;
    }
  }

  /// The slice of the key pool is `first .. last`, cut short at the end of
  /// the pool as a Python slice is.
  lemma KeySliceSpec(pkg: Package, tid: int)
    requires HasTypeSpecs(pkg.types, tid)
    ensures var pool := pkg.keyStrings.strings;
      var (first, last) := KeyRange(pkg.types, tid);
      && |KeySlice(pkg, tid)| == (if first <= |pool| then Bound(last, |pool|) - first else 0)
      && (forall k | 0 <= k < |KeySlice(pkg, tid)| :: first + k < |pool| && KeySlice(pkg, tid)[k] == pool[first + k])
  {
  }

  /// `get_package_type_keys` numbers the keys of the type's slice from 0:
  /// it succeeds exactly when the package is found, the type and every
  /// earlier type has a type-spec header and every key of the slice
  /// decodes, and key `k` is then slice entry `k` decoded.
  lemma TypeKeysSpec(table: ResTable, pid: int, tid: int)
    ensures TypeKeys(table, pid, tid).Ok? <==>
      && 1 <= tid
      && FirstPackage(table.packages, pid).Ok?
      && HasTypeSpecs(FirstPackage(table.packages, pid).value.types, tid)
      && var pkg := FirstPackage(table.packages, pid).value;
         forall j | 0 <= j < |KeySlice(pkg, tid)| :: DecodeEntry(pkg.keyStrings.flags, KeySlice(pkg, tid)[j]).Ok?
    ensures TypeKeys(table, pid, tid).Ok? ==>
      var pkg := FirstPackage(table.packages, pid).value;
      var keys := TypeKeys(table, pid, tid).value;
      && (forall k :: k in keys <==> 0 <= k < |KeySlice(pkg, tid)|)
      && (forall k | 0 <= k < |KeySlice(pkg, tid)| :: DecodeEntry(pkg.keyStrings.flags, KeySlice(pkg, tid)[k]) == Ok(keys[k]))
  {
    if 1 <= tid && FirstPackage(table.packages, pid).Ok? {
      var pkg := FirstPackage(table.packages, pid).value;
      if HasTypeSpecs(pkg.types, tid) {
        var slice := KeySlice(pkg, tid);
        var flags := pkg.keyStrings.flags;
        assert TypeKeys(table, pid, tid) == DecodeEntries(flags, slice, 0);
        DecodeEntriesSpec(flags, slice, 0);
      }
    }
  }

  /// One key of a type's key map is the key-pool entry at that offset
  /// from the start of the type's range, inside the range, decoded.
  lemma TypeKeyAt(table: ResTable, pid: int, tid: int, k: int)
    requires TypeKeys(table, pid, tid).Ok? && k in TypeKeys(table, pid, tid).value
    ensures FirstPackage(table.packages, pid).Ok?
    ensures HasTypeSpecs(FirstPackage(table.packages, pid).value.types, tid)
    ensures var pkg := FirstPackage(table.packages, pid).value;
      var (first, last) := KeyRange(pkg.types, tid);
      && 0 <= k
      && first + k < last
      && first + k < |pkg.keyStrings.strings|
      && DecodeEntry(pkg.keyStrings.flags, pkg.keyStrings.strings[first + k]) == Ok(TypeKeys(table, pid, tid).value[k])
  {
    var pkg := FirstPackage(table.packages, pid).value;
    var slice := KeySlice(pkg, tid);
    assert TypeKeys(table, pid, tid) == DecodeEntries(pkg.keyStrings.flags, slice, 0);
    DecodedEntryAt(pkg.keyStrings.flags, slice, 0, k);
    KeySliceSpec(pkg, tid);
  }

  // ---------------------------------------------------------------------
  // Resolution

  /// Everything `rid_to_name` touches is present and decodes: every
  /// package name, the package, all of its type names, type `tid` with a
  /// type-spec record for it and every earlier type, every key of its
  /// slice, and key `kid` inside that slice.
  ghost predicate Resolvable(table: ResTable, pid: int, tid: int, kid: int)
  {
    && (forall j | 0 <= j < |table.packages| :: Utf16ToStr(table.packages[j].name).Ok?)
    && FirstPackage(table.packages, pid).Ok?
    && var pkg := FirstPackage(table.packages, pid).value;
       && (forall j | 0 <= j < |pkg.typeStrings.strings| ::
             DecodeEntry(pkg.typeStrings.flags, pkg.typeStrings.strings[j]).Ok?)
       && 1 <= tid <= |pkg.typeStrings.strings|
       && HasTypeSpecs(pkg.types, tid)
       && (forall j | 0 <= j < |KeySlice(pkg, tid)| ::
             DecodeEntry(pkg.keyStrings.flags, KeySlice(pkg, tid)[j]).Ok?)
       && 0 <= kid < |KeySlice(pkg, tid)|
  }

  /// A resource resolves exactly when everything it needs is there; it
  /// never yields a partial result.
  lemma ResolveSucceedsIff(table: ResTable, pid: int, tid: int, kid: int)
    ensures Resolve(table, pid, tid, kid).Ok? <==> Resolvable(table, pid, tid, kid)
  {
    if Resolve(table, pid, tid, kid).Ok? {
      ResolveNeedsAll(table, pid, tid, kid);
    }
    if Resolvable(table, pid, tid, kid) {
      ResolveSucceeds(table, pid, tid, kid);
    }
  }

  lemma ResolveNeedsAll(table: ResTable, pid: int, tid: int, kid: int)
    requires Resolve(table, pid, tid, kid).Ok?
    ensures Resolvable(table, pid, tid, kid)
  {
    ResolveParts(table, pid, tid, kid);
    PackageNamesOk(table.packages);
    var pkg := FirstPackage(table.packages, pid).value;
    TypeNameAt(pkg, tid);
    DecodeEntriesSpec(pkg.typeStrings.flags, pkg.typeStrings.strings, 1);
    TypeKeysSpec(table, pid, tid);
  }

  lemma ResolveSucceeds(table: ResTable, pid: int, tid: int, kid: int)
    requires Resolvable(table, pid, tid, kid)
    ensures Resolve(table, pid, tid, kid).Ok?
  {
    var ps := table.packages;
    PackageNamesOk(ps);
    var pkg := FirstPackage(ps, pid).value;
    PackageNamesHasId(ps, pid);
    DecodeEntriesSpec(pkg.typeStrings.flags, pkg.typeStrings.strings, 1);
    TypeKeysSpec(table, pid, tid);
  }

  /// The package-name map exists exactly when every name decodes.
  lemma PackageNamesOk(packages: seq<Package>)
    ensures PackageNames(packages).Ok? <==> forall j | 0 <= j < |packages| :: Utf16ToStr(packages[j].name).Ok?
  {
    CollectNamesFails(packages, 0, map[]);
  }

  /// An id some package carries is a key of the package-name map.
  lemma PackageNamesHasId(packages: seq<Package>, pid: int)
    requires PackageNames(packages).Ok?
    requires FirstPackage(packages, pid).Ok?
    ensures pid in PackageNames(packages).value
  {
    CollectNamesKeys(packages, 0, map[]);
    var i :| 0 <= i < |packages| && packages[i].id == pid;
    assert !IdAbsentFrom(packages, 0, pid);
  }

  /// A resolved name is made of the three lookups `rid_to_name` performs.
  lemma ResolveParts(table: ResTable, pid: int, tid: int, kid: int)
    requires Resolve(table, pid, tid, kid).Ok?
    ensures PackageNames(table.packages).Ok? && pid in PackageNames(table.packages).value
    ensures FirstPackage(table.packages, pid).Ok?
    ensures var pkg := FirstPackage(table.packages, pid).value;
      DecodeEntries(pkg.typeStrings.flags, pkg.typeStrings.strings, 1).Ok? &&
      tid in DecodeEntries(pkg.typeStrings.flags, pkg.typeStrings.strings, 1).value
    ensures TypeKeys(table, pid, tid).Ok? && kid in TypeKeys(table, pid, tid).value
    ensures var pkg := FirstPackage(table.packages, pid).value;
      Resolve(table, pid, tid, kid).value == Name(
        PackageNames(table.packages).value[pid],
        DecodeEntries(pkg.typeStrings.flags, pkg.typeStrings.strings, 1).value[tid],
        TypeKeys(table, pid, tid).value[kid])
  {
  }

  /// When a resource resolves, its package name is that of the last
  /// package with id `pid`.
  lemma ResolvePackageName(table: ResTable, pid: int, tid: int, kid: int)
    requires Resolve(table, pid, tid, kid).Ok?
    ensures exists j | 0 <= j < |table.packages| && table.packages[j].id == pid ::
      IsLastWithItsId(table.packages, j) &&
      Utf16ToStr(table.packages[j].name) == Ok(Resolve(table, pid, tid, kid).value.package)
  {
    ResolveParts(table, pid, tid, kid);
    PackageNamesSpec(table.packages);
    var j := LastWithId(table.packages, pid);
  }

  /// When a resource resolves, its type name is entry `tid - 1` of the
  /// type-string pool.
  lemma ResolveTypeName(table: ResTable, pid: int, tid: int, kid: int)
    requires Resolve(table, pid, tid, kid).Ok?
    ensures FirstPackage(table.packages, pid).Ok?
    ensures var pool := FirstPackage(table.packages, pid).value.typeStrings;
      && 1 <= tid <= |pool.strings|
      && DecodeEntry(pool.flags, pool.strings[tid - 1]) == Ok(Resolve(table, pid, tid, kid).value.typ)
  {
    ResolveParts(table, pid, tid, kid);
    TypeNameAt(FirstPackage(table.packages, pid).value, tid);
  }

  /// Type `tid` of the type-name map is entry `tid - 1` of the pool.
  lemma TypeNameAt(pkg: Package, tid: int)
    requires DecodeEntries(pkg.typeStrings.flags, pkg.typeStrings.strings, 1).Ok?
    requires tid in DecodeEntries(pkg.typeStrings.flags, pkg.typeStrings.strings, 1).value
    ensures 1 <= tid <= |pkg.typeStrings.strings|
    ensures DecodeEntry(pkg.typeStrings.flags, pkg.typeStrings.strings[tid - 1]) ==
            Ok(DecodeEntries(pkg.typeStrings.flags, pkg.typeStrings.strings, 1).value[tid])
  {
    DecodedEntryAt(pkg.typeStrings.flags, pkg.typeStrings.strings, 1, tid);
  }

  /// When a resource resolves, its key name is entry `first + kid` of the
  /// key pool, `first .. last` being type `tid`'s range, and that entry
  /// lies inside the range: a key is never taken from a neighbouring type.
  lemma ResolveKeyName(table: ResTable, pid: int, tid: int, kid: int)
    requires Resolve(table, pid, tid, kid).Ok?
    ensures FirstPackage(table.packages, pid).Ok?
    ensures HasTypeSpecs(FirstPackage(table.packages, pid).value.types, tid)
    ensures var pkg := FirstPackage(table.packages, pid).value;
      var (first, last) := KeyRange(pkg.types, tid);
      && 0 <= kid
      && first + kid < last
      && first + kid < |pkg.keyStrings.strings|
      && DecodeEntry(pkg.keyStrings.flags, pkg.keyStrings.strings[first + kid]) == Ok(Resolve(table, pid, tid, kid).value.key)
  {
    ResolveParts(table, pid, tid, kid);
    TypeKeyAt(table, pid, tid, kid);
  }

  /// The index of the last package carrying `pid`, when one does.
  lemma LastWithId(packages: seq<Package>, pid: int) returns (j: nat)
    requires exists i | 0 <= i < |packages| :: packages[i].id == pid
    ensures j < |packages| && packages[j].id == pid && IsLastWithItsId(packages, j)
  {
    j := |packages| - 1;
    while packages[j].id != pid
      invariant j < |packages| && IdAbsentFrom(packages, j + 1, pid)
      invariant exists i | 0 <= i <= j :: packages[i].id == pid
      decreases j
    {
      j := j - 1;
    }
  }

  /// An id no package carries fails with PackageNotFound, once the package
  /// names have been decoded.
  lemma ResolveUnknownPackage(table: ResTable, pid: int, tid: int, kid: int)
    requires forall j | 0 <= j < |table.packages| :: Utf16ToStr(table.packages[j].name).Ok?
    requires forall j | 0 <= j < |table.packages| :: table.packages[j].id != pid
    ensures Resolve(table, pid, tid, kid) == Err(PackageNotFound(pid))
  {
    PackageNamesSpec(table.packages);
  }

  /// Type id 0 (or below) fails with the type-id error once the package and
  /// its type names are there.
  lemma ResolveTypeIdTooSmall(table: ResTable, pid: int, tid: int, kid: int)
    requires forall j | 0 <= j < |table.packages| :: Utf16ToStr(table.packages[j].name).Ok?
    requires FirstPackage(table.packages, pid).Ok?
    requires var pool := FirstPackage(table.packages, pid).value.typeStrings;
      forall j | 0 <= j < |pool.strings| :: DecodeEntry(pool.flags, pool.strings[j]).Ok?
    requires tid < 1
    ensures Resolve(table, pid, tid, kid) == Err(TypeIdTooSmall(tid))
  {
    PackageNamesSpec(table.packages);
    var pool := FirstPackage(table.packages, pid).value.typeStrings;
    DecodeEntriesSpec(pool.flags, pool.strings, 1);
  }

  /// A key id outside the type's slice of the key pool fails with a
  /// missing-key error, never with a name from a neighbouring type.
  lemma ResolveKeyOutOfRange(table: ResTable, pid: int, tid: int, kid: int)
    requires FirstPackage(table.packages, pid).Ok?
    requires var pkg := FirstPackage(table.packages, pid).value;
      HasTypeSpecs(pkg.types, tid) && !(0 <= kid < |KeySlice(pkg, tid)|)
    ensures Resolve(table, pid, tid, kid).Err?
    ensures Resolve(table, pid, tid, kid).error in
      {NulTerminatorNotFound, DecodeFailed, KeyNotFound}
  {
    if Resolve(table, pid, tid, kid).Ok? {
      ResolveParts(table, pid, tid, kid);
      TypeKeysSpec(table, pid, tid);
      assert false;
    }
    var pkg := FirstPackage(table.packages, pid).value;
    if PackageNames(table.packages).Err? {
      PackageNamesError(table.packages);
    } else if DecodeEntries(pkg.typeStrings.flags, pkg.typeStrings.strings, 1).Err? {
      DecodeEntriesSpec(pkg.typeStrings.flags, pkg.typeStrings.strings, 1);
    } else if TypeKeys(table, pid, tid).Err? {
      assert TypeKeys(table, pid, tid) == DecodeEntries(pkg.keyStrings.flags, KeySlice(pkg, tid), 0);
      DecodeEntriesSpec(pkg.keyStrings.flags, KeySlice(pkg, tid), 0);
    }
  }

  /// On a table where every name decodes, a key id outside the type's
  /// slice is exactly the missing-key error of `keys[kid]`.
  lemma ResolveKeyNotFound(table: ResTable, pid: int, tid: int, kid: int)
    requires forall j | 0 <= j < |table.packages| :: Utf16ToStr(table.packages[j].name).Ok?
    requires FirstPackage(table.packages, pid).Ok?
    requires var pkg := FirstPackage(table.packages, pid).value;
      && (forall j | 0 <= j < |pkg.typeStrings.strings| ::
            DecodeEntry(pkg.typeStrings.flags, pkg.typeStrings.strings[j]).Ok?)
      && HasTypeSpecs(pkg.types, tid)
      && (forall j | 0 <= j < |KeySlice(pkg, tid)| ::
            DecodeEntry(pkg.keyStrings.flags, KeySlice(pkg, tid)[j]).Ok?)
      && !(0 <= kid < |KeySlice(pkg, tid)|)
    ensures Resolve(table, pid, tid, kid) == Err(KeyNotFound)
  {
    var pkg := FirstPackage(table.packages, pid).value;
    PackageNamesSpec(table.packages);
    DecodeEntriesSpec(pkg.typeStrings.flags, pkg.typeStrings.strings, 1);
    TypeKeysSpec(table, pid, tid);
  }

  /// Decoding a package name can only fail for want of a terminator or on
  /// bad UTF-16, and so can the package-name map.
  lemma PackageNamesError(packages: seq<Package>)
    requires PackageNames(packages).Err?
    ensures PackageNames(packages).error in {NulTerminatorNotFound, DecodeFailed}
  {
    CollectNamesFails(packages, 0, map[]);
    var j :| 0 <= j < |packages| && Utf16ToStr(packages[j].name) == Err(PackageNames(packages).error) &&
      forall l | 0 <= l < j :: Utf16ToStr(packages[l].name).Ok?;
  }
}
