/// The resolver of `rid2name.py`: given a decoded resource table, find a
/// package by id, name its types, work out which slice of the shared key
/// pool belongs to a type, and put the three names of a resource together.
module Arsc {
  import opened PySeq
  import opened TextCodec

  /// `ResStringPool_header.Flags.UTF8_FLAG`: bit 8 of a string pool's flags.
  const UTF8_FLAG: nat := 0x100

  /// A string pool as the table decoder hands it over: the header's flags
  /// word and the raw entries, each still in its length/terminator envelope.
  datatype StringPool = StringPool(flags: nat, strings: seq<seq<byte>>)

  /// The header of one type-spec record.
  datatype TypeSpecHeader = TypeSpecHeader(entryCount: nat)

  /// One package of the table. `types[t - 1]` holds the type-spec records
  /// of type id `t`, one per configuration; `name` is the fixed-width,
  /// NUL-padded UTF-16 name field of the package header.
  datatype Package = Package(
    id: nat,
    name: seq<byte>,
    typeStrings: StringPool,
    keyStrings: StringPool,
    types: seq<seq<TypeSpecHeader>>)

  /// The decoded table; only its packages are consulted.
  datatype ResTable = ResTable(packages: seq<Package>)

  /// What makes a resolution stop. Each variant stands for one exception
  /// the source raises (or lets escape).
  datatype Error =
    | NulTerminatorNotFound   // 'NULL-terminator not found'
    | DecodeFailed            // UnicodeDecodeError from bytes.decode
    | PackageNotFound(pid: int)
    | TypeIdTooSmall(tid: int) // 'Minimum ID of type is 1'
    | IndexOutOfRange         // IndexError on pkg.types
    | KeyNotFound             // KeyError on one of the three name maps

  datatype Result<T> = Ok(value: T) | Err(error: Error)

  /// The names of a resource: package, type and key.
  datatype Name = Name(package: string, typ: string, key: string)

  // ---------------------------------------------------------------------
  // Package names: a UTF-16 buffer cut at its first even-aligned NUL pair

  /// An even-aligned pair of NUL bytes starts at `i`; a lone trailing byte
  /// never forms one.
  predicate IsNulPairAt(buf: seq<byte>, i: int)
  {
    0 <= i && i % 2 == 0 && i + 1 < |buf| && buf[i] == 0 && buf[i + 1] == 0
  }

  function FirstNulPairFrom(buf: seq<byte>, from: nat): (r: Result<nat>)
    requires from % 2 == 0
    ensures r.Ok? ==>
      from <= r.value && IsNulPairAt(buf, r.value) &&
      forall j | from <= j < r.value :: !IsNulPairAt(buf, j)
    ensures r.Err? ==>
      r.error == NulTerminatorNotFound && forall j | from <= j :: !IsNulPairAt(buf, j)
    decreases |buf| - from
  {
    if |buf| <= from + 1 then Err(NulTerminatorNotFound)
    else if buf[from] == 0 && buf[from + 1] == 0 then Ok(from)
    else FirstNulPairFrom(buf, from + 2)
  }

  /// The smallest even index holding a two-byte NUL, or an error exactly
  /// when the buffer has none.
  function FirstNulPair(buf: seq<byte>): (r: Result<nat>)
    ensures r.Ok? <==> exists i :: IsNulPairAt(buf, i)
    ensures r.Ok? ==>
      IsNulPairAt(buf, r.value) && forall j | 0 <= j < r.value :: !IsNulPairAt(buf, j)
    ensures r.Err? ==> r.error == NulTerminatorNotFound
  {
    FirstNulPairFrom(buf, 0)
  }

  /// `Arsc._find_null_utf16`: scans the even offsets and compares the
  /// two-byte slice there with `b'\0\0'`.
  method FindNullUtf16(buf: seq<byte>) returns (r: Result<nat>)
    ensures r == FirstNulPair(buf)
    ensures r.Ok? ==>
      r.value % 2 == 0 && r.value + 1 < |buf| &&
      buf[r.value] == 0 && buf[r.value + 1] == 0 &&
      forall j | 0 <= j < r.value :: !IsNulPairAt(buf, j)
    ensures r.Err? <==> forall j :: !IsNulPairAt(buf, j)
  {
    var i := 0;
    while i < |buf|
      invariant 0 <= i && i % 2 == 0
      invariant FirstNulPairFrom(buf, i) == FirstNulPair(buf)
    {
      if Slice(buf, i, i + 2) == [0, 0] {
        return Ok(i);
      }
      i := i + 2;
    }
    return Err(NulTerminatorNotFound);
  }

  /// `Arsc.utf16_to_str`: decodes the part of the buffer before its first
  /// even-aligned NUL pair.
  function Utf16ToStr(buf: seq<byte>): Result<string>
  {
    match FirstNulPair(buf)
    case Err(e) => Err(e)
    case Ok(k) =>
      match Utf16Decode(Slice(buf, 0, k))
      case None => Err(DecodeFailed)
      case Some(s) => Ok(s)
  }

  /// The bytes before an even-aligned NUL pair: the name's UTF-16 text
  /// when they hold no such pair themselves.
  ghost predicate IsTerminatedAt(buf: seq<byte>, k: int)
  {
    IsNulPairAt(buf, k) && forall j :: !IsNulPairAt(buf[..k], j)
  }

  /// The first NUL pair is the only offset a name can end at.
  lemma TerminatorUnique(buf: seq<byte>, k: int)
    ensures IsTerminatedAt(buf, k) <==> FirstNulPair(buf) == Ok(k)
  {
    if IsNulPairAt(buf, k) {
      forall j ensures IsNulPairAt(buf[..k], j) <==> IsNulPairAt(buf, j) && j < k {
      }
    }
  }

  /// A buffer with no NUL pair fails with the terminator error; otherwise
  /// the name is the decoding of the bytes before the terminator, and
  /// fails with the decoding error exactly when those bytes are not UTF-16.
  lemma Utf16ToStrSpec(buf: seq<byte>)
    ensures FirstNulPair(buf).Err? ==> Utf16ToStr(buf) == Err(NulTerminatorNotFound)
    ensures Utf16ToStr(buf).Ok? <==>
      exists k | IsTerminatedAt(buf, k) :: Utf16Decode(buf[..k]).Some?
    ensures Utf16ToStr(buf).Ok? ==>
      exists k | IsTerminatedAt(buf, k) :: Utf16Decode(buf[..k]) == Some(Utf16ToStr(buf).value)
    ensures Utf16ToStr(buf) == Err(DecodeFailed) <==>
      exists k | IsTerminatedAt(buf, k) :: Utf16Decode(buf[..k]).None?
  {
    if FirstNulPair(buf).Ok? {
      var k := FirstNulPair(buf).value;
      assert Slice(buf, 0, k) == buf[..k];
      TerminatorUnique(buf, k);
      forall k' | IsTerminatedAt(buf, k')
        ensures k' == k
      {
        TerminatorUnique(buf, k');
      }
    }
  }

  // ---------------------------------------------------------------------
  // Packages

  /// The first package carrying id `pid`.
  function FirstPackage(packages: seq<Package>, pid: int): (r: Result<Package>)
    ensures r.Ok? <==> exists i | 0 <= i < |packages| :: packages[i].id == pid
    ensures r.Ok? ==> r.value.id == pid && exists i | 0 <= i < |packages| ::
      packages[i] == r.value && forall j | 0 <= j < i :: packages[j].id != pid
    ensures r.Err? ==> r.error == PackageNotFound(pid)
  {
    if packages == [] then Err(PackageNotFound(pid))
    else if packages[0].id == pid then Ok(packages[0])
    else
      var r := FirstPackage(packages[1..], pid);
      assert forall i | 1 <= i < |packages| :: packages[i] == packages[1..][i - 1];
      r
  }

  /// `Arsc.pid_to_package`: a linear search returning at the first match.
  method PidToPackage(table: ResTable, pid: int) returns (r: Result<Package>)
    ensures r == FirstPackage(table.packages, pid)
  {
    var i := 0;
    while i < |table.packages|
      invariant 0 <= i <= |table.packages|
      invariant forall j | 0 <= j < i :: table.packages[j].id != pid
    {
      if table.packages[i].id == pid {
        return Ok(table.packages[i]);
      }
      i := i + 1;
    }
    return Err(PackageNotFound(pid));
  }

  /// The map `get_packages` holds once it has visited `packages[..i]` with
  /// `acc`, carried to the end: packages are visited in order, so a later
  /// package overwrites an earlier one with the same id, and the first name
  /// that cannot be decoded aborts the whole map.
  function CollectNames(packages: seq<Package>, i: nat, acc: map<int, string>): Result<map<int, string>>
    requires i <= |packages|
    decreases |packages| - i
  {
    if i == |packages| then Ok(acc)
    else
      match Utf16ToStr(packages[i].name)
      case Err(e) => Err(e)
      case Ok(name) => CollectNames(packages, i + 1, acc[packages[i].id := name])
  }

  function PackageNames(packages: seq<Package>): Result<map<int, string>>
  {
    CollectNames(packages, 0, map[])
  }

  /// `Arsc.get_packages`.
  method GetPackages(table: ResTable) returns (r: Result<map<int, string>>)
    ensures r == PackageNames(table.packages)
  {
    var packages := table.packages;
    var ret := map[];
    var i := 0;
    while i < |packages|
      invariant 0 <= i <= |packages|
      invariant CollectNames(packages, i, ret) == PackageNames(packages)
    {
      var name := Utf16ToStr(packages[i].name);
      if name.Err? {
        return Err(name.error);
      }
      ret := ret[packages[i].id := name.value];
      i := i + 1;
    }
    return Ok(ret);
  }

  // ---------------------------------------------------------------------
  // Pool entries

  /// One pool entry as text: the two-byte length prefix and the terminator
  /// (one byte for a UTF-8 pool, two otherwise) are sliced off, the rest is
  /// decoded and NULs are stripped from both ends. Only a flags word equal
  /// to UTF8_FLAG selects UTF-8.
  function DecodeEntry(flags: nat, t: seq<byte>): Result<string>
  {
    var text := if flags == UTF8_FLAG then Utf8Decode(Slice(t, 2, -1))
                else Utf16Decode(Slice(t, 2, -2));
    match text
    case None => Err(DecodeFailed)
    case Some(s) => Ok(StripNul(s))
  }

  /// The map built by numbering `entries[i..]` from `base + i` on top of
  /// `acc`, or the decoding error of the first entry that fails.
  function DecodeFrom(flags: nat, entries: seq<seq<byte>>, base: int, i: nat, acc: map<int, string>)
    : Result<map<int, string>>
    requires i <= |entries|
    decreases |entries| - i
  {
    if i == |entries| then Ok(acc)
    else
      match DecodeEntry(flags, entries[i])
      case Err(e) => Err(e)
      case Ok(s) => DecodeFrom(flags, entries, base, i + 1, acc[base + i := s])
  }

  /// The map from `base + i` to the decoded `entries[i]`.
  function DecodeEntries(flags: nat, entries: seq<seq<byte>>, base: int): Result<map<int, string>>
  {
    DecodeFrom(flags, entries, base, 0, map[])
  }

  /// The loop `get_package_types` and `get_package_type_keys` share:
  /// `enumerate` over the entries, decoding each and storing it under
  /// `base + i`.
  method NumberEntries(flags: nat, entries: seq<seq<byte>>, base: int) returns (r: Result<map<int, string>>)
    ensures r == DecodeEntries(flags, entries, base)
  {
    var ret := map[];
    var i := 0;
    while i < |entries|
      invariant 0 <= i <= |entries|
      invariant DecodeFrom(flags, entries, base, i, ret) == DecodeEntries(flags, entries, base)
    {
      var text := DecodeEntry(flags, entries[i]);
      if text.Err? {
        return Err(text.error);
      }
      ret := ret[base + i := text.value];
      i := i + 1;
    }
    return Ok(ret);
  }

  /// `Arsc.get_package_types`: type id `i + 1` names the i-th entry of the
  /// type-string pool.
  method GetPackageTypes(pkg: Package) returns (r: Result<map<int, string>>)
    ensures r == DecodeEntries(pkg.typeStrings.flags, pkg.typeStrings.strings, 1)
  {
    r := NumberEntries(pkg.typeStrings.flags, pkg.typeStrings.strings, 1);
  }

  // ---------------------------------------------------------------------
  // Key ranges

  /// Every type id from 1 to `tid` has at least one type-spec record, so
  /// `types[i][0]` exists for each index the source reads.
  predicate HasTypeSpecs(types: seq<seq<TypeSpecHeader>>, tid: int)
  {
    1 <= tid <= |types| && forall i | 0 <= i < tid :: types[i] != []
  }

  /// Sum of the entry counts of the first record of each of the first `n`
  /// types.
  function KeyStart(types: seq<seq<TypeSpecHeader>>, n: nat): nat
    requires n <= |types| && forall i | 0 <= i < n :: types[i] != []
  {
    if n == 0 then 0 else KeyStart(types, n - 1) + types[n - 1][0].entryCount
  }

  /// The half-open slice `[first, last)` of the key pool owned by type `tid`.
  function KeyRange(types: seq<seq<TypeSpecHeader>>, tid: int): (r: (nat, nat))
    requires HasTypeSpecs(types, tid)
    ensures r.0 <= r.1 && r.1 - r.0 == types[tid - 1][0].entryCount
    ensures tid == 1 ==> r.0 == 0
  {
    var first := KeyStart(types, tid - 1);
    (first, first + types[tid - 1][0].entryCount)
  }

  /// The keys a type id `tid` of `pkg` gets: its range of the key pool.
  function KeySlice(pkg: Package, tid: int): seq<seq<byte>>
    requires HasTypeSpecs(pkg.types, tid)
  {
    Slice(pkg.keyStrings.strings, KeyRange(pkg.types, tid).0, KeyRange(pkg.types, tid).1)
  }

  /// What `get_package_type_keys(pid, tid)` returns or raises.
  function TypeKeys(table: ResTable, pid: int, tid: int): Result<map<int, string>>
  {
    if tid < 1 then Err(TypeIdTooSmall(tid))
    else
      match FirstPackage(table.packages, pid)
      case Err(e) => Err(e)
      case Ok(pkg) =>
        if !HasTypeSpecs(pkg.types, tid) then Err(IndexOutOfRange)
        else
          DecodeEntries(pkg.keyStrings.flags, KeySlice(pkg, tid), 0)
  }

  /// Lines 81-92 of `get_package_type_keys`: the first type-spec header of
  /// type `tid` and of every earlier type is read (an IndexError when one is
  /// missing), and the entry counts of the earlier ones are summed into
  /// `first`.
  method FindKeyRange(pkg: Package, tid: int) returns (r: Result<(nat, nat)>)
    requires 1 <= tid
    ensures HasTypeSpecs(pkg.types, tid) ==> r == Ok(KeyRange(pkg.types, tid))
    ensures !HasTypeSpecs(pkg.types, tid) ==> r == Err(IndexOutOfRange)
  {
    if tid - 1 >= |pkg.types| || pkg.types[tid - 1] == [] {
      return Err(IndexOutOfRange);
    }
    var thisTypeSpec := pkg.types[tid - 1][0];
    var pastTypeSpecs: seq<TypeSpecHeader> := [];
    var i := 0;
    while i < tid - 1
      invariant 0 <= i <= tid - 1
      invariant forall j | 0 <= j < i :: pkg.types[j] != []
      invariant |pastTypeSpecs| == i
      invariant forall j | 0 <= j < i :: pastTypeSpecs[j] == pkg.types[j][0]
    {
      if pkg.types[i] == [] {
        return Err(IndexOutOfRange);
      }
      pastTypeSpecs := pastTypeSpecs + [pkg.types[i][0]];
      i := i + 1;
    }

    var first := 0;
    var k := 0;
    while k < |pastTypeSpecs|
      invariant 0 <= k <= |pastTypeSpecs|
      invariant first == KeyStart(pkg.types, k)
    {
      first := first + pastTypeSpecs[k].entryCount;
      k := k + 1;
    }
    var last := first + thisTypeSpec.entryCount;
    return Ok((first, last));
  }

  /// `Arsc.get_package_type_keys`: the key pool is sliced at the type's key
  /// range and the slice is numbered from 0.
  method GetPackageTypeKeys(table: ResTable, pid: int, tid: int) returns (r: Result<map<int, string>>)
    ensures r == TypeKeys(table, pid, tid)
  {
    if tid < 1 {
      return Err(TypeIdTooSmall(tid));
    }
    var found := PidToPackage(table, pid);
    if found.Err? {
      return Err(found.error);
    }
    var pkg := found.value;
    var range := FindKeyRange(pkg, tid);
    if range.Err? {
      return Err(range.error);
    }
    var (first, last) := range.value;
    var keylist := Slice(pkg.keyStrings.strings, first, last);
    r := NumberEntries(pkg.keyStrings.flags, keylist, 0);
  }

  // ---------------------------------------------------------------------
  // Resolution

  /// What `rid_to_name(pid, tid, kid)` returns or raises: every package
  /// name is decoded first, then the package, its type names and the key
  /// slice are looked up, and finally the three maps are indexed.
  function Resolve(table: ResTable, pid: int, tid: int, kid: int): Result<Name>
  {
    match PackageNames(table.packages)
    case Err(e) => Err(e)
    case Ok(packages) =>
      match FirstPackage(table.packages, pid)
      case Err(e) => Err(e)
      case Ok(pkg) =>
        match DecodeEntries(pkg.typeStrings.flags, pkg.typeStrings.strings, 1)
        case Err(e) => Err(e)
        case Ok(types) =>
          match TypeKeys(table, pid, tid)
          case Err(e) => Err(e)
          case Ok(keys) =>
            if pid in packages && tid in types && kid in keys then
              Ok(Name(packages[pid], types[tid], keys[kid]))
            else Err(KeyNotFound)
  }

  /// `Arsc.rid_to_name`.
  method RidToName(table: ResTable, pid: int, tid: int, kid: int) returns (r: Result<Name>)
    ensures r == Resolve(table, pid, tid, kid)
  {
    var packages := GetPackages(table);
    if packages.Err? {
      return Err(packages.error);
    }
    var pkg := PidToPackage(table, pid);
    if pkg.Err? {
      return Err(pkg.error);
    }
    var types := GetPackageTypes(pkg.value);
    if types.Err? {
      return Err(types.error);
    }
    var keys := GetPackageTypeKeys(table, pid, tid);
    if keys.Err? {
      return Err(keys.error);
    }
    if pid !in packages.value || tid !in types.value || kid !in keys.value {
      return Err(KeyNotFound);
    }
    return Ok(Name(packages.value[pid], types.value[tid], keys.value[kid]));
  }
}
