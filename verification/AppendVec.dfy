/**
 * The append-only file of stored accounts: entries of a fixed 136-byte part
 * and the account data, each starting on an 8-byte boundary.
 */
module AppendVec {
  import opened AccountInfo
  import opened Arith
  import opened Common
  import CumulativeOffsets

  type Byte = b: nat | b < 256

  type U64 = n: nat | n <= U64_MAX

  /** Public keys and hashes, as stored. */
  type Bytes32 = s: seq<Byte> | |s| == 32 witness seq(32, _ => 0)

  const STORED_META_SIZE := 48
  const ACCOUNT_META_SIZE := 56
  const HASH_SIZE := 32
  const STORE_META_OVERHEAD := 136

  /** The next multiple of 8. */
  function Align(x: nat): (r: nat)
    ensures x <= r < x + 8
  {
    x + 7 - (x + 7) % 8
  }

  lemma AlignIsNext(x: nat)
    ensures Align(x) % 8 == 0 && x <= Align(x) < x + 8
    ensures x % 8 == 0 ==> Align(x) == x
  {
  }

  // ----- 64-bit numbers, least byte first -----

  function LittleEndian(n: nat, k: nat): (s: seq<Byte>)
    ensures |s| == k
  {
    if k == 0 then [] else [n % 256] + LittleEndian(n / 256, k - 1)
  }

  function FromLittleEndian(s: seq<Byte>): (r: nat) {
    if s == [] then 0 else s[0] + 256 * FromLittleEndian(s[1..])
  }

  function Pow256(k: nat): (p: nat)
    ensures p >= 1
  {
    if k == 0 then 1 else 256 * Pow256(k - 1)
  }

  lemma {:induction false} NumberSurvives(n: nat, k: nat)
    requires n < Pow256(k)
    ensures FromLittleEndian(LittleEndian(n, k)) == n
  {
    if k > 0 {
      NumberSurvives(n / 256, k - 1);
      assert LittleEndian(n, k)[1..] == LittleEndian(n / 256, k - 1);
    }
  }

  lemma {:induction false} SpelledBound(s: seq<Byte>)
    ensures FromLittleEndian(s) < Pow256(|s|)
  {
    if s != [] { SpelledBound(s[1..]); }
  }

  lemma LowByte(low: Byte, high: nat)
    ensures (low + 256 * high) % 256 == low && (low + 256 * high) / 256 == high
  {
  }

  lemma {:induction false} BytesSurvive(s: seq<Byte>)
    ensures LittleEndian(FromLittleEndian(s), |s|) == s
  {
    if s != [] {
      BytesSurvive(s[1..]);
      LowByte(s[0], FromLittleEndian(s[1..]));
      assert s == [s[0]] + s[1..];
    }
  }

  lemma EightBytes()
    ensures Pow256(8) == U64_SIZE
  {
    assert Pow256(2) == 0x1_0000 && Pow256(4) == 0x1_0000_0000 && Pow256(6) == 0x1_0000_0000_0000;
  }

  /** The number that eight bytes spell. */
  /** The least byte comes first. */
  lemma {:induction false} LeastByteFirst(n: nat, k: nat, i: nat)
    requires i < k
    ensures LittleEndian(n, k)[i] == n / Pow256(i) % 256
  {
    if i > 0 {
      LeastByteFirst(n / 256, k - 1, i - 1);
      DivDiv(n, 256, Pow256(i - 1));
    }
  }

  function ReadU64(s: seq<Byte>): (r: U64)
    requires |s| == 8
  {
    EightBytes();
    SpelledBound(s);
    FromLittleEndian(s)
  }

  lemma U64Survives(n: U64)
    ensures ReadU64(LittleEndian(n, 8)) == n
  {
    EightBytes();
    NumberSurvives(n, 8);
  }

  // ----- entries -----

  datatype Stored = Stored(writeVersion: U64, pubkey: Bytes32, lamports: U64, rentEpoch: U64, owner: Bytes32,
                           executable: Byte, hash: Bytes32, data: seq<Byte>)
  {
    function Size(): (r: nat) { STORE_META_OVERHEAD + |data| }
  }

  /** The part of the buffer that starts at `offset`. */
  function At(bytes: seq<Byte>, offset: nat, size: nat): (s: seq<Byte>)
    requires offset + size <= |bytes|
    ensures |s| == size
  {
    bytes[offset..offset + size]
  }

  lemma SliceOfSlice(s: seq<Byte>, a: nat, n: nat, b: nat, m: nat)
    requires a + n <= |s| && b + m <= n
    ensures At(At(s, a, n), b, m) == At(s, a + b, m)
  {
    var whole, t, u := At(s, a, n), At(At(s, a, n), b, m), At(s, a + b, m);
    forall i | 0 <= i < m ensures t[i] == u[i] {
      assert t[i] == whole[b + i] == s[a + b + i] == u[i];
    }
  }

  /** The layout of `StoredMeta`. */
  function EncodeStoredMeta(e: Stored): (s: seq<Byte>)
    ensures |s| == STORED_META_SIZE
  {
    LittleEndian(e.writeVersion, 8) + LittleEndian(|e.data|, 8) + e.pubkey
  }

  /** The layout of `AccountMeta`, with seven bytes of padding. */
  function EncodeAccountMeta(e: Stored): (s: seq<Byte>)
    ensures |s| == ACCOUNT_META_SIZE
  {
    LittleEndian(e.lamports, 8) + LittleEndian(e.rentEpoch, 8) + e.owner + [e.executable] + [0, 0, 0, 0, 0, 0, 0]
  }

  function Image(e: Stored): (s: seq<Byte>)
    ensures |s| == e.Size()
  {
    EncodeStoredMeta(e) + EncodeAccountMeta(e) + e.hash + e.data
  }

  predicate IsPadding(i: nat) { 97 <= i < 104 }

  /** The bytes at `o` are those of the entry, except for the padding. */
  ghost predicate EntryAt(bytes: seq<Byte>, o: nat, e: Stored) {
    && o + e.Size() <= |bytes|
    && |e.data| <= U64_MAX
    && forall i {:trigger Image(e)[i]} :: 0 <= i < e.Size() && !IsPadding(i) ==> bytes[o + i] == Image(e)[i]
  }

  lemma MetaFields(e: Stored)
    ensures var s := EncodeStoredMeta(e);
            && At(s, 0, 8) == LittleEndian(e.writeVersion, 8) && At(s, 8, 8) == LittleEndian(|e.data|, 8)
            && At(s, 16, 32) == e.pubkey
  {
  }

  lemma AccountMetaFields(e: Stored)
    ensures var s := EncodeAccountMeta(e);
            && At(s, 0, 8) == LittleEndian(e.lamports, 8) && At(s, 8, 8) == LittleEndian(e.rentEpoch, 8)
            && At(s, 16, 32) == e.owner && s[48] == e.executable
  {
    JoinedFields(LittleEndian(e.lamports, 8), LittleEndian(e.rentEpoch, 8), e.owner, e.executable);
  }

  lemma JoinedFields(lamports: seq<Byte>, epoch: seq<Byte>, owner: Bytes32, executable: Byte)
    requires |lamports| == |epoch| == 8
    ensures var s := lamports + epoch + owner + [executable] + [0, 0, 0, 0, 0, 0, 0];
            At(s, 0, 8) == lamports && At(s, 8, 8) == epoch && At(s, 16, 32) == owner && s[48] == executable
  {
  }

  lemma ImageParts(e: Stored)
    ensures At(Image(e), 0, 48) == EncodeStoredMeta(e) && At(Image(e), 48, 56) == EncodeAccountMeta(e)
    ensures At(Image(e), 104, 32) == e.hash && At(Image(e), 136, |e.data|) == e.data
  {
    var a, b := EncodeStoredMeta(e), EncodeAccountMeta(e);
    JoinedParts(a, b, e.hash, e.data);
  }

  /** Where each field is in an entry. */
  lemma ImageIs(e: Stored)
    ensures e.Size() == 136 + |e.data|
    ensures At(Image(e), 0, 8) == LittleEndian(e.writeVersion, 8) && At(Image(e), 8, 8) == LittleEndian(|e.data|, 8)
    ensures At(Image(e), 16, 32) == e.pubkey
    ensures At(Image(e), 48, 8) == LittleEndian(e.lamports, 8) && At(Image(e), 56, 8) == LittleEndian(e.rentEpoch, 8)
    ensures At(Image(e), 64, 32) == e.owner && At(Image(e), 96, 1) == [e.executable]
    ensures At(Image(e), 104, 32) == e.hash && At(Image(e), 136, |e.data|) == e.data
  {
    ImageParts(e);
    MetaFields(e);
    AccountMetaFields(e);
    SliceOfSlice(Image(e), 0, 48, 0, 8);
    SliceOfSlice(Image(e), 0, 48, 8, 8);
    SliceOfSlice(Image(e), 0, 48, 16, 32);
    SliceOfSlice(Image(e), 48, 56, 0, 8);
    SliceOfSlice(Image(e), 48, 56, 8, 8);
    SliceOfSlice(Image(e), 48, 56, 16, 32);
    SliceOfSlice(Image(e), 48, 56, 48, 1);
    assert At(EncodeAccountMeta(e), 48, 1) == [EncodeAccountMeta(e)[48]];
  }

  lemma JoinedParts(a: seq<Byte>, b: seq<Byte>, c: seq<Byte>, d: seq<Byte>)
    requires |a| == 48 && |b| == 56 && |c| == 32
    ensures var s := a + b + c + d;
            At(s, 0, 48) == a && At(s, 48, 56) == b && At(s, 104, 32) == c && At(s, 136, |d|) == d
  {
  }

  /** A stretch of an entry without padding is in the buffer as it is in the image. */
  lemma StretchAt(bytes: seq<Byte>, o: nat, e: Stored, a: nat, n: nat)
    requires EntryAt(bytes, o, e) && a + n <= e.Size() && (a + n <= 97 || 104 <= a)
    ensures At(bytes, o + a, n) == At(Image(e), a, n)
  {
    var t, u := At(bytes, o + a, n), At(Image(e), a, n);
    forall j | 0 <= j < n ensures t[j] == u[j] {
      assert Image(e)[a + j] == bytes[o + (a + j)];
    }
  }

  /** An entry lies where its four parts do, padding aside. */
  lemma PartsAreEntry(bytes: seq<Byte>, o: nat, e: Stored)
    requires o + e.Size() <= |bytes| && |e.data| <= U64_MAX
    requires At(bytes, o, 48) == EncodeStoredMeta(e)
    requires At(bytes, o + 48, 49) == At(EncodeAccountMeta(e), 0, 49)
    requires At(bytes, o + 104, 32) == e.hash && At(bytes, o + 136, |e.data|) == e.data
    ensures EntryAt(bytes, o, e)
  {
    ImageParts(e);
    forall i {:trigger Image(e)[i]} | 0 <= i < e.Size() && !IsPadding(i) ensures bytes[o + i] == Image(e)[i] {
      if i < 48 {
        assert At(bytes, o, 48)[i] == At(Image(e), 0, 48)[i];
      } else if i < 97 {
        assert At(bytes, o + 48, 49)[i - 48] == At(Image(e), 48, 56)[i - 48];
      } else if i < 136 {
        assert At(bytes, o + 104, 32)[i - 104] == At(Image(e), 104, 32)[i - 104];
      } else {
        assert At(bytes, o + 136, |e.data|)[i - 136] == At(Image(e), 136, |e.data|)[i - 136];
      }
    }
  }

  /** Entries follow each other from `o` on, and less than a boundary is left behind the last. */
  ghost predicate LaidOut(bytes: seq<Byte>, o: nat, es: seq<Stored>)
    decreases |es|
  {
    if es == [] then Align(|bytes|) == o
    else EntryAt(bytes, o, es[0]) && LaidOut(bytes, Align(o + es[0].Size()), es[1..])
  }

  // ----- reading -----

  /** `size` bytes at `offset` if the buffer has them, and the next boundary behind. */
  function GetSlice(bytes: seq<Byte>, offset: nat, size: nat): (r: Option<(seq<Byte>, nat)>)
  {
    var next := offset + size;
    if next > U64_MAX || next > |bytes| then None else Some((At(bytes, offset, size), Align(next)))
  }

  function GetAccount(bytes: seq<Byte>, offset: nat): (r: Option<(Stored, nat)>)
    ensures r.Some? ==> offset < r.value.1 < |bytes| + 8 && r.value.1 % 8 == 0
  {
    match GetSlice(bytes, offset, STORED_META_SIZE)
    case None => None
    case Some((meta, next)) =>
      match GetSlice(bytes, next, ACCOUNT_META_SIZE)
      case None => None
      case Some((accountMeta, next)) =>
        match GetSlice(bytes, next, HASH_SIZE)
        case None => None
        case Some((hash, next)) =>
          match GetSlice(bytes, next, ReadU64(At(meta, 8, 8)))
          case None => None
          case Some((data, next)) => Some((Decode(meta, accountMeta, hash, data), next))
  }

  function Decode(meta: seq<Byte>, accountMeta: seq<Byte>, hash: Bytes32, data: seq<Byte>): (r: Stored)
    requires |meta| == STORED_META_SIZE && |accountMeta| == ACCOUNT_META_SIZE
  {
    Stored(ReadU64(At(meta, 0, 8)), At(meta, 16, 32), ReadU64(At(accountMeta, 0, 8)),
           ReadU64(At(accountMeta, 8, 8)), At(accountMeta, 16, 32), accountMeta[48], hash, data)
  }

  lemma Boundaries(o: nat)
    requires o % 8 == 0
    ensures Align(o + 48) == o + 48 && Align(o + 104) == o + 104 && Align(o + 136) == o + 136
  {
  }

  lemma StoredMetaIsRead(bytes: seq<Byte>, o: nat, e: Stored)
    requires EntryAt(bytes, o, e)
    ensures var meta := At(bytes, o, 48);
            && ReadU64(At(meta, 0, 8)) == e.writeVersion && ReadU64(At(meta, 8, 8)) == |e.data|
            && At(meta, 16, 32) == e.pubkey
  {
    StretchAt(bytes, o, e, 0, 48);
    ImageParts(e);
    MetaFields(e);
    U64Survives(e.writeVersion);
    U64Survives(|e.data|);
  }

  lemma AccountMetaIsRead(bytes: seq<Byte>, o: nat, e: Stored)
    requires EntryAt(bytes, o, e)
    ensures var meta := At(bytes, o + 48, 56);
            && ReadU64(At(meta, 0, 8)) == e.lamports && ReadU64(At(meta, 8, 8)) == e.rentEpoch
            && At(meta, 16, 32) == e.owner && meta[48] == e.executable
  {
    var meta, image := At(bytes, o + 48, 56), EncodeAccountMeta(e);
    StretchAt(bytes, o, e, 48, 49);
    ImageParts(e);
    SliceOfSlice(bytes, o + 48, 56, 0, 49);
    SliceOfSlice(Image(e), 48, 56, 0, 49);
    SameFields(meta, image);
    AccountMetaFields(e);
    U64Survives(e.lamports);
    U64Survives(e.rentEpoch);
  }

  lemma SameFields(s: seq<Byte>, t: seq<Byte>)
    requires |s| == |t| == 56 && At(s, 0, 49) == At(t, 0, 49)
    ensures At(s, 0, 8) == At(t, 0, 8) && At(s, 8, 8) == At(t, 8, 8) && At(s, 16, 32) == At(t, 16, 32) && s[48] == t[48]
  {
    SliceOfSlice(s, 0, 49, 0, 8);
    SliceOfSlice(t, 0, 49, 0, 8);
    SliceOfSlice(s, 0, 49, 8, 8);
    SliceOfSlice(t, 0, 49, 8, 8);
    SliceOfSlice(s, 0, 49, 16, 32);
    SliceOfSlice(t, 0, 49, 16, 32);
    assert At(s, 0, 49)[48] == s[48] && At(t, 0, 49)[48] == t[48];
  }

  /** An entry that lies in the buffer is read, field by field. */
  lemma ReadsEntry(bytes: seq<Byte>, o: nat, e: Stored)
    requires o % 8 == 0 && |bytes| <= U64_MAX && EntryAt(bytes, o, e)
    ensures GetAccount(bytes, o) == Some((e, Align(o + e.Size())))
  {
    Boundaries(o);
    StoredMetaIsRead(bytes, o, e);
    AccountMetaIsRead(bytes, o, e);
    StretchAt(bytes, o, e, 104, 32);
    StretchAt(bytes, o, e, 136, |e.data|);
    ImageParts(e);
  }

  lemma DecodesStoredMeta(meta: seq<Byte>, e: Stored)
    requires |meta| == 48 && e.pubkey == At(meta, 16, 32)
    requires e.writeVersion == ReadU64(At(meta, 0, 8)) && |e.data| == ReadU64(At(meta, 8, 8))
    ensures meta == EncodeStoredMeta(e)
  {
    assert LittleEndian(e.writeVersion, 8) == At(meta, 0, 8) by { BytesSurvive(At(meta, 0, 8)); }
    assert LittleEndian(|e.data|, 8) == At(meta, 8, 8) by { BytesSurvive(At(meta, 8, 8)); }
    JoinedMeta(meta);
  }

  lemma JoinedMeta(s: seq<Byte>)
    requires |s| == 48
    ensures s == At(s, 0, 8) + At(s, 8, 8) + At(s, 16, 32)
  {
  }

  lemma DecodesAccountMeta(meta: seq<Byte>, e: Stored)
    requires |meta| == 56 && e.owner == At(meta, 16, 32) && e.executable == meta[48]
    requires e.lamports == ReadU64(At(meta, 0, 8)) && e.rentEpoch == ReadU64(At(meta, 8, 8))
    ensures At(meta, 0, 49) == At(EncodeAccountMeta(e), 0, 49)
  {
    assert LittleEndian(e.lamports, 8) == At(meta, 0, 8) by { BytesSurvive(At(meta, 0, 8)); }
    assert LittleEndian(e.rentEpoch, 8) == At(meta, 8, 8) by { BytesSurvive(At(meta, 8, 8)); }
    JoinedHead(meta, EncodeAccountMeta(e));
  }

  lemma JoinedHead(s: seq<Byte>, t: seq<Byte>)
    requires |s| == |t| == 56
    requires t[..49] == At(s, 0, 8) + At(s, 8, 8) + At(s, 16, 32) + [s[48]]
    ensures At(s, 0, 49) == At(t, 0, 49)
  {
  }

  /** Whatever is read at a boundary is an entry that lies there. */
  lemma ReadIsEntry(bytes: seq<Byte>, o: nat)
    requires o % 8 == 0 && GetAccount(bytes, o).Some?
    ensures var (e, next) := GetAccount(bytes, o).value; EntryAt(bytes, o, e) && next == Align(o + e.Size())
  {
    Boundaries(o);
    var e := GetAccount(bytes, o).value.0;
    DecodesStoredMeta(At(bytes, o, 48), e);
    DecodesAccountMeta(At(bytes, o + 48, 56), e);
    SliceOfSlice(bytes, o + 48, 56, 0, 49);
    PartsAreEntry(bytes, o, e);
  }

  /** All entries read from `o` on until nothing more can be read, and where that was. */
  function ReadAll(bytes: seq<Byte>, o: nat): (r: (seq<Stored>, nat))
    decreases |bytes| + 8 - o
  {
    match GetAccount(bytes, o)
    case None => ([], o)
    case Some((e, next)) => First(e, ReadAll(bytes, next))
  }

  function First(e: Stored, rest: (seq<Stored>, nat)): (r: (seq<Stored>, nat)) {
    ([e] + rest.0, rest.1)
  }

  lemma ReadStep(bytes: seq<Byte>, o: nat)
    requires GetAccount(bytes, o).Some?
    ensures var (e, next) := GetAccount(bytes, o).value;
            ReadAll(bytes, o).0 == [e] + ReadAll(bytes, next).0 && ReadAll(bytes, o).1 == ReadAll(bytes, next).1
  {
  }

  lemma ReadsFirst(bytes: seq<Byte>, o: nat, e: Stored, rest: seq<Stored>, end: nat)
    requires o % 8 == 0 && |bytes| <= U64_MAX && EntryAt(bytes, o, e)
    requires ReadAll(bytes, Align(o + e.Size())) == (rest, end)
    ensures ReadAll(bytes, o) == ([e] + rest, end)
  {
    ReadsEntry(bytes, o, e);
  }

  /** A layout is read back whole. */
  lemma {:induction false} ReadsLayout(bytes: seq<Byte>, o: nat, es: seq<Stored>)
    requires o % 8 == 0 && |bytes| <= U64_MAX && LaidOut(bytes, o, es)
    ensures ReadAll(bytes, o) == (es, Align(|bytes|))
    decreases |es|
  {
    if es != [] {
      var e, rest := es[0], es[1..];
      ReadsLayout(bytes, Align(o + e.Size()), rest);
      ReadsFirst(bytes, o, e, rest, Align(|bytes|));
      assert es == [e] + rest;
    }
  }

  lemma LaidOutNext(bytes: seq<Byte>, o: nat, e: Stored, rest: seq<Stored>)
    requires EntryAt(bytes, o, e)
    ensures LaidOut(bytes, o, [e] + rest) <==> LaidOut(bytes, Align(o + e.Size()), rest)
  {
    assert ([e] + rest)[1..] == rest;
  }

  /** What is read is a layout exactly when reading ends at the end of the buffer. */
  lemma {:induction false} ReadIsLayout(bytes: seq<Byte>, o: nat)
    requires o % 8 == 0
    ensures LaidOut(bytes, o, ReadAll(bytes, o).0) <==> ReadAll(bytes, o).1 == Align(|bytes|)
    decreases |bytes| + 8 - o
  {
    if GetAccount(bytes, o).Some? {
      var (e, next) := GetAccount(bytes, o).value;
      ReadIsEntry(bytes, o);
      ReadStep(bytes, o);
      ReadIsLayout(bytes, next);
      LaidOutNext(bytes, o, e, ReadAll(bytes, next).0);
    }
  }

  // ----- sanitizing -----

  /** The executable byte is a bool, and an account without lamports is the default account. */
  predicate IsSane(e: Stored) {
    && e.executable <= 1
    && (e.lamports != 0 || IsDefault(e))
  }

  predicate IsDefault(e: Stored) {
    e.lamports == 0 && e.data == [] && e.owner == seq(32, _ => 0) && e.executable == 0 && e.rentEpoch == 0
  }

  ghost predicate AllSane(es: seq<Stored>) {
    forall i :: 0 <= i < |es| ==> IsSane(es[i])
  }

  /** A buffer that consists of sane entries. */
  ghost predicate IsSanitary(bytes: seq<Byte>) {
    exists es :: LaidOut(bytes, 0, es) && AllSane(es)
  }

  // ----- writing -----

  /** An account to store; accounts without lamports are stored without their account. */
  datatype Storable = Storable(account: Option<Account>, pubkey: Bytes32, hash: Bytes32, writeVersion: U64)

  datatype Account = Account(lamports: U64, rentEpoch: U64, owner: Bytes32, executable: bool, data: seq<Byte>)

  function DefaultAccount(): (r: Account) {
    Account(0, 0, seq(32, _ => 0), false, [])
  }

  function EntryOf(a: Storable): (r: Stored) {
    var account := if a.account.Some? then a.account.value else DefaultAccount();
    Stored(a.writeVersion, a.pubkey, account.lamports, account.rentEpoch, account.owner,
           if account.executable then 1 else 0, a.hash, account.data)
  }

  /** What is stored of an account, field by field; without an account, that of the default one. */
  lemma EntryFields(a: Storable)
    ensures var e := EntryOf(a);
            && e.pubkey == a.pubkey && e.hash == a.hash && e.writeVersion == a.writeVersion
            && (a.account.Some? ==>
                  && e.lamports == a.account.value.lamports && e.rentEpoch == a.account.value.rentEpoch
                  && e.owner == a.account.value.owner && e.data == a.account.value.data
                  && e.executable == if a.account.value.executable then 1 else 0)
            && (a.account.None? ==>
                  && e.lamports == 0 && e.rentEpoch == 0 && e.data == [] && e.executable == 0
                  && e.owner == seq(32, _ => 0))
  {
  }

  function Parts(e: Stored): (r: seq<seq<Byte>>) {
    [EncodeStoredMeta(e), EncodeAccountMeta(e), e.hash, e.data]
  }

  /** Bytes copied to `pos`, where there is room. */
  function Overwrite(bytes: seq<Byte>, pos: nat, src: seq<Byte>): (r: seq<Byte>)
    ensures |r| == |bytes|
  {
    if pos + |src| <= |bytes| then bytes[..pos] + src + bytes[pos + |src|..] else bytes
  }

  /** Where the first `n` values end if each starts on a boundary. */
  function EndOf(offset: nat, vals: seq<seq<Byte>>, n: nat): (end: nat)
    requires n <= |vals|
    ensures offset <= end
  {
    if n == 0 then offset else Align(EndOf(offset, vals, n - 1)) + |vals[n - 1]|
  }

  /** The buffer after the first `n` values are copied, each to the next boundary. */
  function Place(bytes: seq<Byte>, offset: nat, vals: seq<seq<Byte>>, n: nat): (r: seq<Byte>)
    requires n <= |vals|
    ensures |r| == |bytes|
  {
    if n == 0 then bytes
    else Overwrite(Place(bytes, offset, vals, n - 1), Align(EndOf(offset, vals, n - 1)), vals[n - 1])
  }

  lemma {:induction false} EndOfGrows(offset: nat, vals: seq<seq<Byte>>, m: nat, n: nat)
    requires m <= n <= |vals|
    ensures EndOf(offset, vals, m) <= EndOf(offset, vals, n)
  {
    if m < n { EndOfGrows(offset, vals, m, n - 1); }
  }

  lemma OverwriteKeeps(bytes: seq<Byte>, pos: nat, src: seq<Byte>, b: nat)
    requires b <= pos && b <= |bytes|
    ensures Overwrite(bytes, pos, src)[..b] == bytes[..b]
  {
  }

  /** Later values are placed behind everything that was there before. */
  lemma {:induction false} PlaceKeeps(bytes: seq<Byte>, offset: nat, vals: seq<seq<Byte>>, m: nat, n: nat, b: nat)
    requires m <= n <= |vals| && b <= EndOf(offset, vals, m) && b <= |bytes|
    ensures Place(bytes, offset, vals, n)[..b] == Place(bytes, offset, vals, m)[..b]
  {
    if m < n {
      PlaceKeeps(bytes, offset, vals, m, n - 1, b);
      EndOfGrows(offset, vals, m, n - 1);
      OverwriteKeeps(Place(bytes, offset, vals, n - 1), Align(EndOf(offset, vals, n - 1)), vals[n - 1], b);
    }
  }

  lemma OverwriteKept(bytes: seq<Byte>, pos: nat, src: seq<Byte>, r: seq<Byte>)
    requires pos + |src| <= |bytes| == |r|
    requires r[..pos + |src|] == Overwrite(bytes, pos, src)[..pos + |src|]
    ensures At(r, pos, |src|) == src
  {
    var next := pos + |src|;
    var once := Overwrite(bytes, pos, src);
    assert once[pos..next] == src;
    assert r[pos..next] == r[..next][pos..] && once[pos..next] == once[..next][pos..];
  }

  lemma PlacesValue(bytes: seq<Byte>, offset: nat, vals: seq<seq<Byte>>, n: nat, j: nat)
    requires j < n <= |vals| && EndOf(offset, vals, j + 1) <= |bytes|
    ensures At(Place(bytes, offset, vals, n), Align(EndOf(offset, vals, j)), |vals[j]|) == vals[j]
  {
    PlaceKeeps(bytes, offset, vals, j + 1, n, EndOf(offset, vals, j + 1));
    OverwriteKept(Place(bytes, offset, vals, j), Align(EndOf(offset, vals, j)), vals[j], Place(bytes, offset, vals, n));
  }

  lemma EntryEnds(offset: nat, e: Stored)
    ensures var o := Align(offset);
            && Align(EndOf(offset, Parts(e), 1)) == o + 48 && Align(EndOf(offset, Parts(e), 2)) == o + 104
            && Align(EndOf(offset, Parts(e), 3)) == o + 136 && EndOf(offset, Parts(e), 4) == o + e.Size()
  {
    AlignIsNext(offset);
    Boundaries(Align(offset));
    assert EndOf(offset, Parts(e), 1) == Align(offset) + 48;
    assert EndOf(offset, Parts(e), 2) == Align(offset) + 104;
    assert EndOf(offset, Parts(e), 3) == Align(offset) + 136;
  }

  lemma PlacesPart(bytes: seq<Byte>, offset: nat, e: Stored, j: nat, pos: nat, part: seq<Byte>)
    requires j < 4 && EndOf(offset, Parts(e), 4) <= |bytes|
    requires pos == Align(EndOf(offset, Parts(e), j)) && part == Parts(e)[j]
    ensures pos + |part| <= |bytes| && At(Place(bytes, offset, Parts(e), 4), pos, |part|) == part
  {
    EndOfGrows(offset, Parts(e), j + 1, 4);
    PlacesValue(bytes, offset, Parts(e), 4, j);
  }

  lemma WholePartsAreEntry(bytes: seq<Byte>, o: nat, e: Stored)
    requires o + e.Size() <= |bytes| && |e.data| <= U64_MAX
    requires At(bytes, o, 48) == EncodeStoredMeta(e) && At(bytes, o + 48, 56) == EncodeAccountMeta(e)
    requires At(bytes, o + 104, 32) == e.hash && At(bytes, o + 136, |e.data|) == e.data
    ensures EntryAt(bytes, o, e)
  {
    SliceOfSlice(bytes, o + 48, 56, 0, 49);
    PartsAreEntry(bytes, o, e);
  }

  /** The four parts of an entry, placed behind `offset`, are an entry at the next boundary. */
  lemma PlacesEntry(bytes: seq<Byte>, offset: nat, e: Stored)
    requires EndOf(offset, Parts(e), 4) <= |bytes| <= U64_MAX
    ensures EntryAt(Place(bytes, offset, Parts(e), 4), Align(offset), e)
  {
    var o := Align(offset);
    EntryEnds(offset, e);
    PlacesPart(bytes, offset, e, 0, o, EncodeStoredMeta(e));
    PlacesPart(bytes, offset, e, 1, o + 48, EncodeAccountMeta(e));
    PlacesPart(bytes, offset, e, 2, o + 104, e.hash);
    PlacesPart(bytes, offset, e, 3, o + 136, e.data);
    WholePartsAreEntry(Place(bytes, offset, Parts(e), 4), o, e);
  }

  lemma EntryKept(bytes: seq<Byte>, longer: seq<Byte>, o: nat, e: Stored)
    requires EntryAt(bytes, o, e) && |bytes| <= |longer| && longer[..|bytes|] == bytes
    ensures EntryAt(longer, o, e)
  {
    forall i {:trigger Image(e)[i]} | 0 <= i < e.Size() && !IsPadding(i) ensures longer[o + i] == Image(e)[i] {
      assert longer[..|bytes|][o + i] == bytes[o + i];
    }
  }

  /** A new entry at the boundary behind a layout continues the layout. */
  lemma {:induction false} LayoutGrows(bytes: seq<Byte>, longer: seq<Byte>, o: nat, es: seq<Stored>, e: Stored)
    requires LaidOut(bytes, o, es) && |bytes| <= |longer| && longer[..|bytes|] == bytes
    requires EntryAt(longer, Align(|bytes|), e) && |longer| == Align(|bytes|) + e.Size()
    ensures LaidOut(longer, o, es + [e])
    decreases |es|
  {
    if es == [] {
      assert ([] + [e])[1..] == [];
    } else {
      EntryKept(bytes, longer, o, es[0]);
      LayoutGrows(bytes, longer, Align(o + es[0].Size()), es[1..], e);
      assert (es + [e])[1..] == es[1..] + [e];
    }
  }

  lemma EntryCut(bytes: seq<Byte>, n: nat, o: nat, e: Stored)
    requires EntryAt(bytes, o, e) && o + e.Size() <= n <= |bytes|
    ensures EntryAt(bytes[..n], o, e)
  {
  }

  // ----- where the entries are -----

  /** The boundary behind entries that start at `o`. */
  function EndPos(o: nat, es: seq<Stored>): (r: nat)
    decreases |es|
  {
    if es == [] then o else EndPos(Align(o + es[0].Size()), es[1..])
  }

  lemma {:induction false} EndPosConcat(o: nat, es: seq<Stored>, more: seq<Stored>)
    ensures EndPos(o, es + more) == EndPos(EndPos(o, es), more)
    decreases |es|
  {
    if es == [] {
      assert es + more == more;
    } else {
      EndPosConcat(Align(o + es[0].Size()), es[1..], more);
      assert (es + more)[1..] == es[1..] + more;
    }
  }

  lemma EndPosNext(o: nat, es: seq<Stored>, i: nat)
    requires i < |es|
    ensures EndPos(o, es[..i + 1]) == Align(EndPos(o, es[..i]) + es[i].Size())
  {
    EndPosConcat(o, es[..i], [es[i]]);
    assert es[..i + 1] == es[..i] + [es[i]];
  }

  lemma {:induction false} EndPosAligned(o: nat, es: seq<Stored>)
    requires o % 8 == 0
    ensures EndPos(o, es) % 8 == 0
    decreases |es|
  {
    if es != [] { EndPosAligned(Align(o + es[0].Size()), es[1..]); }
  }

  lemma {:induction false} LayoutEnds(bytes: seq<Byte>, o: nat, es: seq<Stored>)
    requires LaidOut(bytes, o, es)
    ensures EndPos(o, es) == Align(|bytes|)
    decreases |es|
  {
    if es != [] { LayoutEnds(bytes, Align(o + es[0].Size()), es[1..]); }
  }

  /** In a layout each entry is at the boundary behind the ones before it. */
  lemma {:induction false} LayoutHas(bytes: seq<Byte>, o: nat, es: seq<Stored>, i: nat)
    requires LaidOut(bytes, o, es) && i < |es|
    ensures EntryAt(bytes, EndPos(o, es[..i]), es[i])
    decreases |es|
  {
    if i > 0 {
      LayoutHas(bytes, Align(o + es[0].Size()), es[1..], i - 1);
      assert es[..i][1..] == es[1..][..i - 1];
    }
  }

  datatype StoredAccountInfo = StoredAccountInfo(offset: nat, size: nat)

  /** Each entry starts at the boundary behind the ones before; its size is aligned. */
  ghost predicate InfosOf(start: nat, infos: seq<StoredAccountInfo>, es: seq<Stored>) {
    && |infos| == |es|
    && forall i {:trigger infos[i]} :: 0 <= i < |es| ==>
      infos[i] == StoredAccountInfo(EndPos(start, es[..i]), Align(es[i].Size()))
  }

  lemma AppendedAt(bytes: seq<Byte>, before: seq<Stored>, es: seq<Stored>, after: seq<Stored>, i: nat)
    requires LaidOut(bytes, 0, before + es + after) && i < |es|
    ensures var o := EndPos(EndPos(0, before), es[..i]); o % 8 == 0 && EntryAt(bytes, o, es[i])
  {
    var all, j := before + es + after, |before| + i;
    assert all[..j] == before + es[..i] && all[j] == es[i];
    EndPosConcat(0, before, es[..i]);
    LayoutHas(bytes, 0, all, j);
    EndPosAligned(0, all[..j]);
  }

  lemma ReadsInfo(bytes: seq<Byte>, info: StoredAccountInfo, e: Stored)
    requires |bytes| <= U64_MAX && info.offset % 8 == 0
    requires EntryAt(bytes, info.offset, e) && info.size == Align(e.Size())
    ensures GetAccount(bytes, info.offset) == Some((e, info.offset + info.size))
  {
    AlignShift(info.offset, e.Size());
    ReadsEntry(bytes, info.offset, e);
  }

  /**
   * What was appended is read at the offset that was given back for it, now and
   * after whatever is appended later.
   */
  lemma AppendedIsRead(bytes: seq<Byte>, before: seq<Stored>, es: seq<Stored>, after: seq<Stored>,
                       infos: seq<StoredAccountInfo>, i: nat, info: StoredAccountInfo)
    requires |bytes| <= MAXIMUM_APPEND_VEC_FILE_SIZE && i < |es|
    requires LaidOut(bytes, 0, before + es + after) && InfosOf(EndPos(0, before), infos, es) && info == infos[i]
    ensures GetAccount(bytes, info.offset) == Some((es[i], info.offset + info.size))
  {
    AppendedAt(bytes, before, es, after, i);
    ReadsInfo(bytes, info, es[i]);
  }

  lemma BatchSplit(batches: seq<seq<Stored>>, k: nat, es: seq<Stored>)
    requires k < |batches| && es == batches[k]
    ensures CumulativeOffsets.Flatten(batches) ==
              CumulativeOffsets.Flatten(batches[..k]) + es + CumulativeOffsets.Flatten(batches[k + 1..])
  {
    assert batches == batches[..k] + [es] + batches[k + 1..];
    CumulativeOffsets.FlattenMiddle(batches[..k], es, batches[k + 1..]);
  }

  /** After any sequence of batches, each offset ever given back reads the account written there. */
  lemma EveryBatchIsRead(bytes: seq<Byte>, batches: seq<seq<Stored>>, k: nat, before: seq<Stored>, es: seq<Stored>,
                         infos: seq<StoredAccountInfo>, i: nat, info: StoredAccountInfo)
    requires |bytes| <= MAXIMUM_APPEND_VEC_FILE_SIZE && LaidOut(bytes, 0, CumulativeOffsets.Flatten(batches))
    requires k < |batches| && before == CumulativeOffsets.Flatten(batches[..k]) && es == batches[k] && i < |es|
    requires InfosOf(EndPos(0, before), infos, es) && info == infos[i]
    ensures GetAccount(bytes, info.offset) == Some((es[i], info.offset + info.size))
  {
    BatchSplit(batches, k, es);
    AppendedIsRead(bytes, before, es, CumulativeOffsets.Flatten(batches[k + 1..]), infos, i, info);
  }

  /** Of an account that was appended, its own fields are read at the offset that was given back for it. */
  lemma StoredIsRead(bytes: seq<Byte>, before: seq<Stored>, written: seq<Storable>, after: seq<Stored>,
                     infos: seq<StoredAccountInfo>, i: nat, info: StoredAccountInfo, a: Storable)
    requires |bytes| <= MAXIMUM_APPEND_VEC_FILE_SIZE && LaidOut(bytes, 0, before + EntriesOf(written) + after)
    requires InfosOf(EndPos(0, before), infos, EntriesOf(written))
    requires i < |written| && info == infos[i] && a == written[i]
    ensures var r := GetAccount(bytes, info.offset);
            && r.Some? && r.value.1 == info.offset + info.size
            && r.value.0.pubkey == a.pubkey && r.value.0.hash == a.hash && r.value.0.writeVersion == a.writeVersion
            && (a.account.Some? ==>
                  var account := a.account.value;
                  && r.value.0.lamports == account.lamports && r.value.0.rentEpoch == account.rentEpoch
                  && r.value.0.owner == account.owner && r.value.0.data == account.data
                  && r.value.0.executable == if account.executable then 1 else 0)
            && (a.account.None? ==>
                  && r.value.0.lamports == 0 && r.value.0.rentEpoch == 0 && r.value.0.data == []
                  && r.value.0.owner == seq(32, _ => 0) && r.value.0.executable == 0)
  {
    AppendedIsRead(bytes, before, EntriesOf(written), after, infos, i, info);
    EntryFields(a);
  }

  /** The offsets fit the index: a location made of one is read back unchanged. */
  lemma AppendedIsPacked(bytes: seq<Byte>, before: seq<Stored>, es: seq<Stored>, after: seq<Stored>,
                         infos: seq<StoredAccountInfo>, i: nat, storeId: nat)
    requires |bytes| <= MAXIMUM_APPEND_VEC_FILE_SIZE && i < |es|
    requires LaidOut(bytes, 0, before + es + after) && InfosOf(EndPos(0, before), infos, es)
    ensures var location := StorageLocation.AppendVec(storeId, infos[i].offset);
            var info := New(location, es[i].lamports);
            && info.Some? && info.value.Location() == location
            && (info.value.IsZeroLamport() <==> es[i].lamports == 0)
  {
    AppendedAt(bytes, before, es, after, i);
    PackingIsExact(StorageLocation.AppendVec(storeId, infos[i].offset), es[i].lamports);
  }

  lemma AlignShift(o: nat, n: nat)
    requires o % 8 == 0
    ensures Align(o + n) == o + Align(n)
  {
  }

  // ----- the file -----

  ghost function EntriesOf(accounts: seq<Storable>): (es: seq<Stored>)
    ensures |es| == |accounts|
  {
    seq(|accounts|, i requires 0 <= i < |accounts| => EntryOf(accounts[i]))
  }

  /** Each offset with the distance to the next. */
  method Windows(offsets: seq<nat>) returns (infos: seq<StoredAccountInfo>)
    requires offsets != [] && forall i :: 0 <= i < |offsets| - 1 ==> offsets[i] <= offsets[i + 1]
    ensures |infos| == |offsets| - 1
    ensures forall i :: 0 <= i < |infos| ==> infos[i] == StoredAccountInfo(offsets[i], offsets[i + 1] - offsets[i])
  {
    infos := [];
    for i := 0 to |offsets| - 1
      invariant |infos| == i
      invariant forall j :: 0 <= j < i ==> infos[j] == StoredAccountInfo(offsets[j], offsets[j + 1] - offsets[j])
    {
      infos := infos + [StoredAccountInfo(offsets[i], offsets[i + 1] - offsets[i])];
    }
  }

  /** The starts of the entries and the boundary behind the last. */
  ghost predicate AreStarts(start: nat, offsets: seq<nat>, es: seq<Stored>) {
    && |offsets| == |es| + 1
    && forall i :: 0 <= i <= |es| ==> offsets[i] == EndPos(start, es[..i])
  }

  method InfosFromStarts(ghost start: nat, offsets: seq<nat>, ghost es: seq<Stored>)
    returns (infos: seq<StoredAccountInfo>)
    requires start % 8 == 0 && AreStarts(start, offsets, es)
    ensures InfosOf(start, infos, es)
  {
    forall i | 0 <= i < |es| ensures offsets[i + 1] == offsets[i] + Align(es[i].Size()) {
      EndPosNext(start, es, i);
      EndPosAligned(start, es[..i]);
      AlignShift(offsets[i], es[i].Size());
    }
    infos := Windows(offsets);
    forall i | 0 <= i < |es| ensures infos[i] == StoredAccountInfo(EndPos(start, es[..i]), Align(es[i].Size())) {
      assert infos[i] == StoredAccountInfo(offsets[i], offsets[i + 1] - offsets[i]);
    }
  }

  /** The sizes follow from the offsets and the boundary behind the last entry. */
  method InfosOrNone(ghost start: nat, offsets: seq<nat>, end: nat, ghost es: seq<Stored>)
    returns (infos: Option<seq<StoredAccountInfo>>)
    requires start % 8 == 0 && AreStarts(start, offsets + [end], es)
    ensures infos.None? <==> es == []
    ensures infos.Some? ==> InfosOf(start, infos.value, es)
  {
    if offsets == [] { return None; }
    var rv := InfosFromStarts(start, offsets + [end], es);
    infos := Some(rv);
  }

  lemma NextStart(start: nat, offsets: seq<nat>, pos: nat, es: seq<Stored>, e: Stored)
    requires AreStarts(start, offsets + [pos], es)
    ensures AreStarts(start, offsets + [pos] + [Align(pos + e.Size())], es + [e])
  {
    EndPosNext(start, es + [e], |es|);
    assert es == es[..|es|];
    forall i | 0 <= i <= |es| ensures (es + [e])[..i] == es[..i] {}
  }

  function Behind<T>(s: seq<T>, skip: nat): (r: seq<T>) {
    if skip <= |s| then s[skip..] else []
  }

  lemma EntriesAppend(accounts: seq<Storable>, a: Storable)
    ensures EntriesOf(accounts + [a]) == EntriesOf(accounts) + [EntryOf(a)]
  {
  }

  lemma PrefixAppend<T>(s: seq<T>, t: seq<T>)
    requires s <= t && |s| < |t|
    ensures s + [t[|s|]] <= t
  {
  }

  lemma PrefixTrans<T>(s: seq<T>, t: seq<T>, u: seq<T>)
    requires |s| <= |t| <= |u| && t[..|s|] == s && u[..|t|] == t
    ensures u[..|s|] == s
  {
    assert u[..|s|] == u[..|t|][..|s|];
  }

  /** Reads entry after entry until nothing more can be read. */
  method ReadAccounts(bytes: seq<Byte>, offset: nat, ghost all: seq<Stored>, ghost end: nat)
    returns (accounts: seq<Stored>)
    requires ReadAll(bytes, offset) == (all, end)
    ensures accounts == all
  {
    accounts := [];
    var at := offset;
    while true
      invariant |accounts| <= |all| && accounts == all[..|accounts|]
      invariant ReadAll(bytes, at) == (all[|accounts|..], end)
      decreases |bytes| + 8 - at
    {
      var found := GetAccount(bytes, at);
      RestIs(bytes, at, all, |accounts|, end, found);
      if found.None? { return; }
      assert all[..|accounts| + 1] == accounts + [found.value.0];
      accounts := accounts + [found.value.0];
      at := found.value.1;
    }
  }

  /** Reads entries while they are sane: all of them, or up to the first that is not. */
  method SanitizeEntries(bytes: seq<Byte>, ghost all: seq<Stored>, ghost end: nat)
    returns (clean: bool, count: nat, offset: nat)
    requires ReadAll(bytes, 0) == (all, end)
    ensures clean ==> AllSane(all) && count == |all| && offset == end
    ensures !clean ==> count < |all| && !IsSane(all[count])
  {
    count, offset := 0, 0;
    while true
      invariant count <= |all| && AllSane(all[..count]) && ReadAll(bytes, offset) == (all[count..], end)
      decreases |bytes| + 8 - offset
    {
      var found := GetAccount(bytes, offset);
      RestIs(bytes, offset, all, count, end, found);
      if found.None? { return true, count, offset; }
      if !IsSane(found.value.0) { return false, count, offset; }
      SaneNext(all, count);
      offset := found.value.1;
      count := count + 1;
    }
  }

  lemma RestIs(bytes: seq<Byte>, o: nat, all: seq<Stored>, count: nat, end: nat, found: Option<(Stored, nat)>)
    requires count <= |all| && ReadAll(bytes, o) == (all[count..], end) && found == GetAccount(bytes, o)
    ensures found.None? ==> count == |all| && all[..count] == all && o == end
    ensures found.Some? ==>
              && count < |all| && all[count] == found.value.0
              && ReadAll(bytes, found.value.1) == (all[count + 1..], end)
  {
    if found.Some? {
      ReadStep(bytes, o);
      assert all[count..][0] == all[count] && all[count..][1..] == all[count + 1..];
    }
  }

  lemma SaneNext(all: seq<Stored>, count: nat)
    requires count < |all| && AllSane(all[..count]) && IsSane(all[count])
    ensures AllSane(all[..count + 1])
  {
    assert all[..count + 1] == all[..count] + [all[count]];
  }

  class AppendVec {
    const file: array<Byte>
    var currentLen: nat

    ghost predicate Valid()
      reads this
    {
      0 < file.Length <= MAXIMUM_APPEND_VEC_FILE_SIZE && currentLen <= file.Length
    }

    /** The bytes that readers see. */
    ghost function Bytes(): (r: seq<Byte>)
      reads this, file
      requires Valid()
    {
      file[..currentLen]
    }

    constructor (size: nat)
      requires 0 < size <= MAXIMUM_APPEND_VEC_FILE_SIZE
      ensures Valid() && fresh(file) && file.Length == size && currentLen == 0
      ensures LaidOut(Bytes(), 0, [])
    {
      file := new Byte[size];
      currentLen := 0;
    }

    /** Copies the bytes to the next boundary. */
    method AppendPtr(offset: nat, src: seq<Byte>) returns (next: nat)
      requires Valid() && Align(offset) + |src| <= file.Length
      modifies file
      ensures file[..] == Overwrite(old(file[..]), Align(offset), src) && next == Align(offset) + |src|
    {
      var pos := Align(offset);
      forall i | 0 <= i < |src| { file[pos + i] := src[i]; }
      next := pos + |src|;
    }

    method CopyAll(offset: nat, vals: seq<seq<Byte>>) returns (next: nat)
      requires Valid() && EndOf(offset, vals, |vals|) <= file.Length
      modifies file
      ensures next == EndOf(offset, vals, |vals|) && file[..] == Place(old(file[..]), offset, vals, |vals|)
    {
      next := offset;
      ghost var before := file[..];
      for i := 0 to |vals|
        invariant next == EndOf(offset, vals, i)
        invariant file[..] == Place(before, offset, vals, i)
      {
        EndOfGrows(offset, vals, i + 1, |vals|);
        next := AppendPtr(next, vals[i]);
      }
    }

    /** Copies all the values, or none if they do not fit. */
    method AppendPtrsLocked(offset: nat, vals: seq<seq<Byte>>) returns (pos: Option<nat>, next: nat)
      requires Valid()
      modifies file, this`currentLen
      ensures Valid() && (pos.None? <==> file.Length < EndOf(offset, vals, |vals|))
      ensures pos.None? ==> next == offset && file[..] == old(file[..]) && currentLen == old(currentLen)
      ensures pos.Some? ==>
                && pos.value == Align(offset) && next == currentLen == EndOf(offset, vals, |vals|)
                && file[..] == Place(old(file[..]), offset, vals, |vals|)
    {
      var end: nat := offset;
      for i := 0 to |vals|
        invariant end == EndOf(offset, vals, i)
      {
        end := Align(end);
        end := end + |vals[i]|;
      }
      next := offset;
      if file.Length < end { return None, next; }
      pos := Some(Align(offset));
      next := CopyAll(offset, vals);
      currentLen := next;
    }

    /** Appends one account behind a layout. */
    method AppendAccount(offset: nat, a: Storable, ghost es: seq<Stored>) returns (pos: Option<nat>, next: nat)
      requires Valid() && offset == currentLen && LaidOut(Bytes(), 0, es)
      modifies file, this`currentLen
      ensures Valid() && next == currentLen >= old(currentLen)
      ensures pos.None? <==> file.Length < Align(offset) + EntryOf(a).Size()
      ensures pos.None? ==> Bytes() == old(Bytes())
      ensures pos.Some? ==>
                && pos.value == Align(offset) && currentLen == Align(offset) + EntryOf(a).Size()
                && EntryAt(Bytes(), pos.value, EntryOf(a)) && LaidOut(Bytes(), 0, es + [EntryOf(a)])
      ensures Bytes()[..old(currentLen)] == old(Bytes())
    {
      ghost var e, before, bytes := EntryOf(a), file[..], Bytes();
      EntryEnds(offset, e);
      pos, next := AppendPtrsLocked(offset, Parts(EntryOf(a)));
      if pos.Some? {
        PlacesEntry(before, offset, e);
        PlaceKeeps(before, offset, Parts(e), 0, 4, offset);
        EntryCut(file[..], currentLen, pos.value, e);
        assert Bytes()[..offset] == file[..][..offset] == before[..offset] == bytes;
        LayoutGrows(bytes, Bytes(), 0, es, e);
      }
    }

    /** One more account behind those already appended, if it fits. */
    method AppendNext(offset: nat, a: Storable, offsets: seq<nat>, ghost start: nat, ghost es: seq<Stored>,
                      ghost done: seq<Stored>)
      returns (pos: Option<nat>, next: nat)
      requires Valid() && offset == currentLen && LaidOut(Bytes(), 0, es + done)
      requires AreStarts(start, offsets + [Align(offset)], done)
      modifies file, this`currentLen
      ensures Valid() && next == currentLen >= old(currentLen) && Bytes()[..old(currentLen)] == old(Bytes())
      ensures pos.None? ==> currentLen == old(currentLen) && Bytes() == old(Bytes())
      ensures pos.None? <==> file.Length < Align(offset) + EntryOf(a).Size()
      ensures pos.Some? ==>
                && LaidOut(Bytes(), 0, es + (done + [EntryOf(a)]))
                && AreStarts(start, offsets + [pos.value] + [Align(next)], done + [EntryOf(a)])
    {
      ghost var e := EntryOf(a);
      NextStart(start, offsets, Align(offset), done, e);
      assert (es + done) + [e] == es + (done + [e]);
      pos, next := AppendAccount(offset, a, es + done);
    }

    method AppendWhileFits(accounts: seq<Storable>, skip: nat, ghost es: seq<Stored>)
      returns (offsets: seq<nat>, ghost written: seq<Storable>)
      requires Valid() && LaidOut(Bytes(), 0, es)
      modifies file, this`currentLen
      ensures Valid() && old(currentLen) <= currentLen && Bytes()[..old(currentLen)] == old(Bytes())
      ensures written <= Behind(accounts, skip)
      ensures |written| < |Behind(accounts, skip)| ==>
                file.Length < Align(currentLen) + EntryOf(Behind(accounts, skip)[|written|]).Size()
      ensures LaidOut(Bytes(), 0, es + EntriesOf(written))
      ensures AreStarts(Align(old(currentLen)), offsets + [Align(currentLen)], EntriesOf(written))
    {
      var offset := currentLen;
      offsets, written := [], [];
      ghost var start, bytes := Align(currentLen), Bytes();
      assert es + EntriesOf([]) == es;
      var i := skip;
      while i < |accounts|
        invariant Valid() && offset == currentLen >= |bytes| && Bytes()[..|bytes|] == bytes
        invariant written <= Behind(accounts, skip) && i == skip + |written|
        invariant LaidOut(Bytes(), 0, es + EntriesOf(written))
        invariant AreStarts(start, offsets + [Align(offset)], EntriesOf(written))
      {
        ghost var seen := Bytes();
        var pos;
        pos, offset := AppendNext(offset, accounts[i], offsets, start, es, EntriesOf(written));
        if pos.None? { break; }
        EntriesAppend(written, accounts[i]);
        PrefixAppend(written, Behind(accounts, skip));
        PrefixTrans(bytes, seen, Bytes());
        offsets := offsets + [pos.value];
        written := written + [accounts[i]];
        i := i + 1;
      }
    }

    /**
     * Appends accounts until one does not fit. Of the ones written it gives
     * back where they start and how far it is to the next.
     */
    method AppendAccounts(accounts: seq<Storable>, skip: nat, ghost es: seq<Stored>)
      returns (infos: Option<seq<StoredAccountInfo>>, ghost written: seq<Storable>)
      requires Valid() && LaidOut(Bytes(), 0, es)
      modifies file, this`currentLen
      ensures Valid() && old(currentLen) <= currentLen && Bytes()[..old(currentLen)] == old(Bytes())
      ensures written <= Behind(accounts, skip)
      ensures |written| < |Behind(accounts, skip)| ==>
                file.Length < Align(currentLen) + EntryOf(Behind(accounts, skip)[|written|]).Size()
      ensures LaidOut(Bytes(), 0, es + EntriesOf(written))
      ensures forall i :: 0 <= i < |written| ==> skip + i < |accounts| && written[i] == accounts[skip + i]
      ensures skip + |written| < |accounts| ==>
                file.Length < Align(currentLen) + EntryOf(accounts[skip + |written|]).Size()
      ensures infos.None? <==> written == []
      ensures infos.Some? ==> InfosOf(EndPos(0, es), infos.value, EntriesOf(written))
    {
      LayoutEnds(Bytes(), 0, es);
      AlignIsNext(currentLen);
      ghost var start := Align(currentLen);
      var offsets;
      offsets, written := AppendWhileFits(accounts, skip, es);
      infos := InfosOrNone(start, offsets, Align(currentLen), EntriesOf(written));
    }

    /** All accounts from `offset` on. */
    method Accounts(offset: nat) returns (accounts: seq<Stored>)
      requires Valid()
      ensures accounts == ReadAll(Bytes(), offset).0
    {
      var bytes := file[..currentLen];
      accounts := ReadAccounts(bytes, offset, ReadAll(bytes, offset).0, ReadAll(bytes, offset).1);
    }

    /** Whether the file consists of sane entries, and how many it has. */
    method SanitizeLayoutAndLength() returns (ok: bool, count: nat)
      requires Valid()
      ensures ok <==> IsSanitary(Bytes())
      ensures ok ==> LaidOut(Bytes(), 0, ReadAll(Bytes(), 0).0) && count == |ReadAll(Bytes(), 0).0|
    {
      var bytes := file[..currentLen];
      var clean, offset;
      ghost var all := ReadAll(bytes, 0).0;
      clean, count, offset := SanitizeEntries(bytes, all, ReadAll(bytes, 0).1);
      if !clean {
        InsaneIsNotSanitary(bytes, count);
        return false, count;
      }
      SanitaryExactly(bytes, all, offset);
      ok := offset == Align(currentLen);
    }
  }

  lemma InsaneIsNotSanitary(bytes: seq<Byte>, i: nat)
    requires |bytes| <= U64_MAX && i < |ReadAll(bytes, 0).0| && !IsSane(ReadAll(bytes, 0).0[i])
    ensures !IsSanitary(bytes)
  {
    forall es | LaidOut(bytes, 0, es) ensures !AllSane(es) { ReadsLayout(bytes, 0, es); }
  }

  lemma SanitaryExactly(bytes: seq<Byte>, es: seq<Stored>, end: nat)
    requires |bytes| <= U64_MAX && ReadAll(bytes, 0) == (es, end) && AllSane(es)
    ensures IsSanitary(bytes) <==> end == Align(|bytes|)
    ensures IsSanitary(bytes) ==> LaidOut(bytes, 0, es)
  {
    ReadIsLayout(bytes, 0);
    if IsSanitary(bytes) {
      var all :| LaidOut(bytes, 0, all) && AllSane(all);
      ReadsLayout(bytes, 0, all);
    }
  }

  datatype LoadError = FileSizeTooSmall | FileSizeTooLarge | OffsetOutOfBounds | IncorrectLayout

  datatype LoadResult = Loaded(vec: AppendVec, count: nat) | Failed(error: LoadError)

  function SanitizeLenAndSize(currentLen: nat, fileSize: nat): (r: Option<LoadError>) {
    if fileSize == 0 then Some(FileSizeTooSmall)
    else if fileSize > MAXIMUM_APPEND_VEC_FILE_SIZE then Some(FileSizeTooLarge)
    else if currentLen > fileSize then Some(OffsetOutOfBounds)
    else None
  }

  /** Opens a file of the given contents; only files of sane entries are opened. */
  method NewFromFile(contents: seq<Byte>, currentLen: nat) returns (r: LoadResult)
    ensures r.Loaded? <==>
              0 < |contents| <= MAXIMUM_APPEND_VEC_FILE_SIZE && currentLen <= |contents|
              && IsSanitary(contents[..currentLen])
    ensures r.Loaded? ==>
              && fresh(r.vec) && r.vec.Valid() && r.vec.Bytes() == contents[..currentLen]
              && LaidOut(r.vec.Bytes(), 0, ReadAll(r.vec.Bytes(), 0).0) && r.count == |ReadAll(r.vec.Bytes(), 0).0|
    ensures r.Failed? ==>
              r.error == if |contents| == 0 then FileSizeTooSmall
                         else if |contents| > 0x4_0000_0000 then FileSizeTooLarge
                         else if currentLen > |contents| then OffsetOutOfBounds else IncorrectLayout
  {
    var error := SanitizeLenAndSize(currentLen, |contents|);
    if error.Some? { return Failed(error.value); }
    var vec := new AppendVec(|contents|);
    forall i | 0 <= i < |contents| { vec.file[i] := contents[i]; }
    vec.currentLen := currentLen;
    assert vec.Bytes() == contents[..currentLen];
    var ok, count := vec.SanitizeLayoutAndLength();
    r := if ok then Loaded(vec, count) else Failed(IncorrectLayout);
  }

  /** What the readers find is what the writers appended: every layout, cleanly, from the start. */
  lemma WrittenIsSanitary(bytes: seq<Byte>, es: seq<Stored>)
    requires |bytes| <= U64_MAX && LaidOut(bytes, 0, es)
    ensures IsSanitary(bytes) <==> AllSane(es)
    ensures ReadAll(bytes, 0).0 == es
  {
    ReadsLayout(bytes, 0, es);
    if IsSanitary(bytes) {
      var all :| LaidOut(bytes, 0, all) && AllSane(all);
      ReadsLayout(bytes, 0, all);
    }
  }

  /** An entry made from an account is sane if accounts without lamports are left out. */
  lemma EntryIsSane(a: Storable)
    ensures IsSane(EntryOf(a)) <==>
              (a.account.None? || a.account.value.lamports != 0 || a.account.value == DefaultAccount())
  {
  }

  /** Sane entries are exactly those that are written if accounts without lamports are left out. */
  lemma SaneExactly(e: Stored)
    ensures IsSane(e) <==> exists a: Storable ::
              EntryOf(a) == e && (a.account.None? || a.account.value.lamports != 0)
  {
    if IsSane(e) {
      var account := if e.lamports == 0 then None
                     else Some(Account(e.lamports, e.rentEpoch, e.owner, e.executable == 1, e.data));
      assert EntryOf(Storable(account, e.pubkey, e.hash, e.writeVersion)) == e;
    }
  }

  // ----- matching owners -----

  datatype Match = Index(i: nat) | NoMatch | UnableToLoad

  function FirstIndex(owners: seq<Bytes32>, owner: Bytes32): (i: nat)
    ensures i <= |owners| && (i < |owners| ==> owners[i] == owner)
    ensures forall j :: 0 <= j < i ==> owners[j] != owner
  {
    if owners == [] || owners[0] == owner then 0 else 1 + FirstIndex(owners[1..], owner)
  }

  /** Reads the account part only; `None` in the sums is 64-bit overflow. */
  function AccountMatchesOwners(bytes: seq<Byte>, offset: nat, owners: seq<Bytes32>): (r: Match) {
    if offset + STORED_META_SIZE + 7 > U64_MAX then UnableToLoad
    else
      match GetSlice(bytes, Align(offset + STORED_META_SIZE), ACCOUNT_META_SIZE)
      case None => UnableToLoad
      case Some((accountMeta, _)) =>
        if ReadU64(At(accountMeta, 0, 8)) == 0 then NoMatch
        else
          var i := FirstIndex(owners, At(accountMeta, 16, 32));
          if i < |owners| then Index(i) else NoMatch
  }

  /** It judges an account as reading the whole account would. */
  lemma MatchesWhatIsRead(bytes: seq<Byte>, offset: nat, owners: seq<Bytes32>)
    requires |bytes| <= MAXIMUM_APPEND_VEC_FILE_SIZE && GetAccount(bytes, offset).Some?
    ensures var e := GetAccount(bytes, offset).value.0;
            var m := AccountMatchesOwners(bytes, offset, owners);
            && m != UnableToLoad
            && (m.NoMatch? <==> e.lamports == 0 || e.owner !in owners)
            && (m.Index? ==> m.i < |owners| && owners[m.i] == e.owner && e.owner !in owners[..m.i])
  {
  }

  /** It fails exactly if the account part is not in the file. */
  lemma MatchFailsExactly(bytes: seq<Byte>, offset: nat, owners: seq<Bytes32>)
    requires |bytes| <= MAXIMUM_APPEND_VEC_FILE_SIZE
    ensures AccountMatchesOwners(bytes, offset, owners) == UnableToLoad <==> Align(offset + 48) + 56 > |bytes|
  {
  }
}
