/** The server address that survives reboots (src/serv_addr.c).

    A store has a flash partition with one record, and in memory an active address and whether
    it is valid. What the flash and the reachability probe do is an input of each operation. */
module ServAddr {
  import opened Wrappers
  import opened Bits
  import opened CStrings
  import opened Checksum

  const SERV_ADDR_MAX_LEN := 128
  const ACTIVE_MAGIC: nat := 0x53415256
  const RECORD_LENGTH := 136

  const CR: byte := 13
  const LF: byte := 10

  type ErrorCode = c: int | c < 0 witness -1
  type CStr = s: Bytes | 0 !in s
  type Record = f: Bytes | |f| == RECORD_LENGTH witness Zeros(RECORD_LENGTH)

  datatype Status = OK | EINVAL | ENOENT | EHOSTUNREACH | FlashError(code: ErrorCode)
  datatype Loaded = Address(addr: CStr) | Missing(status: Status)

  /** How the flash behaves: a failed erase or write may leave anything in the partition. */
  datatype LoadOutcome = Readable | Unreadable(code: ErrorCode)
  datatype SaveOutcome = Done | OpenFailed(code: ErrorCode) | WriteFailed(code: ErrorCode, left: Record)

  // ----- Addresses -----

  predicate LineEnd(b: byte) {
    b == CR || b == LF
  }

  function Trim(s: CStr): (r: CStr)
    ensures r <= s
    decreases |s|
  {
    if s != [] && LineEnd(s[|s| - 1]) then Trim(s[..|s| - 1]) else s
  }

  /** All the carriage returns and line feeds at the end go, and nothing else. */
  lemma {:induction false} TrimIs(s: CStr, r: CStr)
    ensures r == Trim(s) <==>
      && r <= s && (forall k :: |r| <= k < |s| ==> LineEnd(s[k]))
      && (r != [] ==> !LineEnd(r[|r| - 1]))
    decreases |s|
  {
    if s != [] && LineEnd(s[|s| - 1]) {
      var t := s[..|s| - 1];
      TrimIs(t, r);
      if r <= s && r != [] && !LineEnd(r[|r| - 1]) {
        assert r != s;
        assert r <= t;
      }
    } else if s != [] && r <= s && r != s {
      assert |r| <= |s| - 1 < |s|;
    }
  }

  /** The copy that the operations make of an address. */
  function Copy(s: CStr): (r: CStr)
    ensures |r| < SERV_ADDR_MAX_LEN
  {
    Trim(Cut(s, SERV_ADDR_MAX_LEN - 1))
  }

  /** The longest part of at most 127 characters at the front of s, without the carriage returns and
      line feeds at its end. */
  ghost predicate IsCopy(s: Bytes, r: Bytes) {
    && r <= s && |r| <= 127
    && (forall k :: |r| <= k < |s| && k < 127 ==> s[k] == 13 || s[k] == 10)
    && (r != [] ==> r[|r| - 1] != 13 && r[|r| - 1] != 10)
  }

  lemma CopyIs(s: CStr, r: CStr)
    ensures r == Copy(s) <==> IsCopy(s, r)
  {
    var cut := Cut(s, SERV_ADDR_MAX_LEN - 1);
    TrimIs(cut, r);
    if r <= s && |r| <= 127 { assert r <= cut; }
  }

  /** Nothing but line ends, as far as it is copied. */
  ghost predicate OnlyLineEnds(s: Bytes) {
    forall k :: 0 <= k < |s| && k < 127 ==> s[k] == 13 || s[k] == 10
  }

  lemma NothingCopied(s: CStr)
    ensures Copy(s) == [] <==> OnlyLineEnds(s)
  {
    CopyIs(s, []);
  }

  // ----- Records -----

  function Word32(a: int, b: int, c: int, d: int): int {
    a + 256 * b + 65536 * c + 16777216 * d
  }

  function WordBytes(x: nat): (r: Bytes)
    requires x < WORD
    ensures |r| == 4 && Word32(r[0], r[1], r[2], r[3]) == x
  {
    [x % 256, x / 256 % 256, x / 256 / 256 % 256, x / 256 / 256 / 256]
  }

  function WordAt(f: Bytes, at: nat): int
    requires at + 4 <= |f|
  {
    Word32(f[at], f[at + 1], f[at + 2], f[at + 3])
  }

  function AddrField(s: CStr): (r: Bytes)
    ensures |r| == SERV_ADDR_MAX_LEN
  {
    Padded(s, SERV_ADDR_MAX_LEN - 1) + [0]
  }

  function RecordOf(addr: Bytes): (f: Record)
    requires |addr| == SERV_ADDR_MAX_LEN
  {
    WordBytes(ACTIVE_MAGIC) + WordBytes(Fnv(FNV_BASIS, addr)) + addr
  }

  /** The magic number and the hash are right. */
  ghost predicate Sound(f: Record) {
    WordAt(f, 0) == ACTIVE_MAGIC && WordAt(f, 4) == Fnv(FNV_BASIS, f[8..])
  }

  function Load(f: Record): Loaded {
    if WordAt(f, 0) != ACTIVE_MAGIC then Missing(ENOENT)
    else if WordAt(f, 4) != Fnv(FNV_BASIS, f[8..]) then Missing(EINVAL)
    else
      var text := CString(f[8..][..SERV_ADDR_MAX_LEN - 1]);
      if text == [] then Missing(ENOENT) else Address(text)
  }

  /** What loading gives after saving. */
  function Kept(s: CStr): Loaded {
    var text := Cut(s, SERV_ADDR_MAX_LEN - 1);
    if text == [] then Missing(ENOENT) else Address(text)
  }

  lemma RecordIsSound(addr: Bytes)
    requires |addr| == SERV_ADDR_MAX_LEN
    ensures Sound(RecordOf(addr)) && RecordOf(addr)[8..] == addr
  {
    var f, m, h := RecordOf(addr), WordBytes(ACTIVE_MAGIC), WordBytes(Fnv(FNV_BASIS, addr));
    assert f[..4] == m && f[4..8] == h && f[8..] == addr;
    assert f[0] == m[0] && f[1] == m[1] && f[2] == m[2] && f[3] == m[3];
    assert f[4] == h[0] && f[5] == h[1] && f[6] == h[2] && f[7] == h[3];
  }

  /** The bytes of a saved record: the magic number, the hash of the last 128 bytes, and there the
      address, cut to 127 characters and padded with NULs. */
  lemma RecordIs(s: CStr)
    ensures var f := RecordOf(AddrField(s));
      && f[..4] == [0x56, 0x52, 0x41, 0x53]
      && f[4] as int + 0x100 * (f[5] as int) + 0x1_0000 * (f[6] as int) + 0x100_0000 * (f[7] as int)
          == Fnv(2166136261, f[8..])
      && forall k :: 0 <= k < 128 ==> f[8 + k] == if k < |s| && k < 127 then s[k] else 0
  {
    var field := AddrField(s);
    var f := RecordOf(field);
    RecordIsSound(field);
    assert f[..4] == WordBytes(ACTIVE_MAGIC);
    forall k | 0 <= k < 128
      ensures f[8 + k] == if k < |s| && k < 127 then s[k] else 0
    {
      assert f[8 + k] == f[8..][k];
      if k < 127 { PaddedAt(s, 127, k); }
    }
  }

  /** Exactly which records hold an address, and which. */
  lemma LoadIs(f: Record, a: CStr)
    ensures var magic := f[..4] == [0x56, 0x52, 0x41, 0x53];
      var hash := f[4] as int + 0x100 * (f[5] as int) + 0x1_0000 * (f[6] as int) + 0x100_0000 * (f[7] as int)
          == Fnv(2166136261, f[8..]);
      && (Load(f) == Address(a) <==>
          magic && hash && 1 <= |a| <= 127 && f[8..8 + |a|] == a && (|a| < 127 ==> f[8 + |a|] == 0))
      && (Load(f) == Missing(ENOENT) <==> !magic || (hash && f[8] == 0))
      && (Load(f) == Missing(EINVAL) <==> magic && !hash)
  {
    MagicIs(f);
    var field := f[8..][..127];
    var text := CString(field);
    assert field[0] == f[8];
    assert text != [] ==> text[0] == field[0];
    if 1 <= |a| <= 127 && f[8..8 + |a|] == a && (|a| < 127 ==> f[8 + |a|] == 0) {
      assert field[..|a|] == a;
      if |a| < 127 { assert field[|a|] == 0; }
      assert field == a + field[|a|..];
      CStringOf(a, field[|a|..]);
    }
    if text == a {
      assert f[8..8 + |a|] == field[..|a|];
      if |a| < 127 { assert field[|a|] == f[8 + |a|]; }
    }
  }

  lemma MagicIs(f: Record)
    ensures WordAt(f, 0) == ACTIVE_MAGIC <==> f[..4] == [0x56, 0x52, 0x41, 0x53]
  {
    assert f[..4] == [f[0], f[1], f[2], f[3]];
  }

  /** An address that was saved is loaded, cut to 127 characters; an empty one is not found. */
  lemma LoadSaved(s: CStr)
    ensures Load(RecordOf(AddrField(s))) == Kept(s)
  {
    var field, n := AddrField(s), SERV_ADDR_MAX_LEN - 1;
    RecordIsSound(field);
    assert field[..n] == Padded(s, n);
    var c := Cut(s, n);
    CStringOf(c, Zeros(n - |c|));
  }

  /** Whatever single byte of a sound record changes, no address is loaded. */
  lemma OneByteChanged(f: Record, i: nat, b: byte)
    requires Sound(f) && i < RECORD_LENGTH && b != f[i]
    ensures Load(f[i := b]) == Missing(if i < 4 then ENOENT else EINVAL)
  {
    var g := f[i := b];
    if i < 8 {
      assert g[8..] == f[8..];
    } else {
      OneByteHash(f[8..], i - 8, b);
      assert g[8..] == f[8..][i - 8 := b];
    }
  }

  // ----- The store as a state machine -----

  datatype Store = Store(flash: Record, addr: CStr, valid: bool)

  datatype Event =
    | Init(initial: Option<CStr>, load: LoadOutcome, save: SaveOutcome)
    | Promote(candidate: Option<CStr>, reachable: bool, save: SaveOutcome)
    | Reboot

  function Fetch(f: Record, o: LoadOutcome): Loaded {
    match o
    case Readable => Load(f)
    case Unreadable(code) => Missing(FlashError(code))
  }

  function Save(f: Record, addr: CStr, o: SaveOutcome): (Record, Status) {
    match o
    case Done => (RecordOf(AddrField(addr)), OK)
    case OpenFailed(code) => (f, FlashError(code))
    case WriteFailed(code, left) => (left, FlashError(code))
  }

  function InitStep(st: Store, initial: Option<CStr>, load: LoadOutcome, save: SaveOutcome): (Store, Status) {
    if initial == None || initial.value == [] then (st, EINVAL)
    else
      var loaded := Fetch(st.flash, load);
      if loaded.Address? then (Store(st.flash, loaded.addr, true), OK)
      else
        var saved := Save(st.flash, Copy(initial.value), save);
        (Store(saved.0, Copy(initial.value), st.valid || saved.1 == OK), saved.1)
  }

  function PromoteStep(st: Store, candidate: Option<CStr>, reachable: bool, save: SaveOutcome): (Store, Status) {
    if !st.valid || candidate == None || Copy(candidate.value) == [] then (st, EINVAL)
    else if Copy(candidate.value) == st.addr then (st, OK)
    else if !reachable then (st, EHOSTUNREACH)
    else
      var saved := Save(st.flash, Copy(candidate.value), save);
      (Store(saved.0, if saved.1 == OK then Copy(candidate.value) else st.addr, true), saved.1)
  }

  function Step(st: Store, e: Event): (Store, Status) {
    match e
    case Init(initial, load, save) => InitStep(st, initial, load, save)
    case Promote(candidate, reachable, save) => PromoteStep(st, candidate, reachable, save)
    case Reboot => (Store(st.flash, [], false), OK)
  }

  /** The state after some events. */
  function After(st: Store, es: seq<Event>): Store
    decreases |es|
  {
    if es == [] then st else Step(After(st, es[..|es| - 1]), es[|es| - 1]).0
  }

  // ----- Where an active address comes from -----

  /** The event supplies the address: loads it, starts with it, or finds that it can be reached. */
  ghost predicate Supplies(st: Store, e: Event, a: CStr) {
    match e
    case Init(initial, load, _) => Fetch(st.flash, load) == Address(a) || (initial.Some? && IsCopy(initial.value, a))
    case Promote(candidate, reachable, _) => reachable && candidate.Some? && IsCopy(candidate.value, a) && a != []
    case Reboot => false
  }

  ghost predicate SuppliedAt(st: Store, es: seq<Event>, k: nat, a: CStr) {
    k < |es| && Supplies(After(st, es[..k]), es[k], a)
  }

  /** In every run, a valid address was loaded, was given to the initialization, or answered a
      probe, and nothing longer than 127 characters is ever active. */
  lemma {:induction false} Provenance(st: Store, es: seq<Event>)
    requires !st.valid
    ensures var now := After(st, es);
      now.valid ==> |now.addr| < SERV_ADDR_MAX_LEN && exists k: nat :: SuppliedAt(st, es, k, now.addr)
    decreases |es|
  {
    if es != [] {
      var n := |es| - 1;
      var before, now := After(st, es[..n]), After(st, es);
      Provenance(st, es[..n]);
      if now.valid {
        if before.valid && now.addr == before.addr {
          var k: nat :| SuppliedAt(st, es[..n], k, now.addr);
          assert es[..n][..k] == es[..k];
          assert SuppliedAt(st, es, k, now.addr);
        } else {
          LastSupplies(before, es[n]);
          assert SuppliedAt(st, es, n, now.addr);
        }
      }
    }
  }

  lemma LastSupplies(before: Store, e: Event)
    requires var now := Step(before, e).0;
      now.valid && !(before.valid && now.addr == before.addr)
    ensures Supplies(before, e, Step(before, e).0.addr) && |Step(before, e).0.addr| < SERV_ADDR_MAX_LEN
  {
    if e.Init? && e.initial.Some? { CopyIs(e.initial.value, Copy(e.initial.value)); }
    if e.Promote? && e.candidate.Some? { CopyIs(e.candidate.value, Copy(e.candidate.value)); }
    LoadedIsCut(before.flash);
  }

  /** What a promotion does, for the part c of the candidate that is copied. */
  lemma PromoteIs(st: Store, s: CStr, c: CStr, reachable: bool, save: SaveOutcome)
    requires IsCopy(s, c)
    ensures Step(st, Promote(None, reachable, save)) == (st, EINVAL)
    ensures Step(st, Promote(Some(s), reachable, save)) ==
      if !st.valid || c == [] then (st, EINVAL)
      else if c == st.addr then (st, OK)
      else if !reachable then (st, EHOSTUNREACH)
      else match save
        case Done => (Store(RecordOf(AddrField(c)), c, true), OK)
        case OpenFailed(code) => (st, FlashError(code))
        case WriteFailed(code, left) => (st.(flash := left), FlashError(code))
    ensures c == [] <==> OnlyLineEnds(s)
  {
    CopyIs(s, c);
    NothingCopied(s);
  }

  /** What an initialization does, for the part c of the initial address that is copied. */
  lemma InitIs(st: Store, s: CStr, c: CStr, load: LoadOutcome, save: SaveOutcome)
    requires IsCopy(s, c)
    ensures Step(st, Init(None, load, save)) == (st, EINVAL)
    ensures Step(st, Init(Some(s), load, save)) ==
      if s == [] then (st, EINVAL)
      else if load.Readable? && Load(st.flash).Address? then (Store(st.flash, Load(st.flash).addr, true), OK)
      else match save
        case Done => (Store(RecordOf(AddrField(c)), c, true), OK)
        case OpenFailed(code) => (Store(st.flash, c, st.valid), FlashError(code))
        case WriteFailed(code, left) => (Store(left, c, st.valid), FlashError(code))
  {
    CopyIs(s, c);
  }

  lemma InitGives(st: Store, s: CStr, load: LoadOutcome, save: SaveOutcome)
    ensures var (now, r) := InitStep(st, Some(s), load, save);
      r == OK ==> now.valid && (Fetch(st.flash, load) == Address(now.addr) || IsCopy(s, now.addr))
  {
    CopyIs(s, Copy(s));
  }

  lemma PromoteGives(st: Store, s: CStr, reachable: bool, save: SaveOutcome)
    ensures var (now, r) := PromoteStep(st, Some(s), reachable, save);
      (r == OK ==> IsCopy(s, now.addr)) && (OnlyLineEnds(s) ==> r == EINVAL)
  {
    CopyIs(s, Copy(s));
    NothingCopied(s);
  }

  /** A promotion that does not succeed leaves the active address; one that does makes it the
      candidate, on the word of the probe or because it already was. */
  lemma PromoteOutcome(st: Store, candidate: Option<CStr>, reachable: bool, save: SaveOutcome)
    ensures var (now, r) := Step(st, Promote(candidate, reachable, save));
      && now.valid == st.valid
      && (r != OK ==> now.addr == st.addr)
      && (r == OK <==> st.valid && candidate.Some? && Copy(candidate.value) != []
                       && (Copy(candidate.value) == st.addr || (reachable && save.Done?)))
      && (r == OK ==> now.addr == Copy(candidate.value))
      && (now.flash != st.flash ==> reachable && !save.OpenFailed?)
  {
  }

  // ----- What survives a reboot -----

  /** The flash holds the active address, as far as an address can be held. */
  ghost predicate Synced(st: Store) {
    st.valid ==> Load(st.flash) == Kept(st.addr) && |st.addr| < SERV_ADDR_MAX_LEN
  }

  /** No save failed since the last one that succeeded, or since the flash was last loaded; but for
      promotions that could not open the flash, which leave both it and the active address. */
  ghost predicate Clean(st: Store, es: seq<Event>)
    decreases |es|
  {
    if es == [] then true
    else
      var before, e := After(st, es[..|es| - 1]), es[|es| - 1];
      if Loads(before, e) then true
      else if Saves(before, e) && !(e.Promote? && e.save.OpenFailed?) then e.save.Done?
      else Clean(st, es[..|es| - 1])
  }

  /** The event gets as far as saving an address. */
  ghost predicate Saves(st: Store, e: Event) {
    match e
    case Init(initial, load, _) => initial.Some? && initial.value != [] && Fetch(st.flash, load).Missing?
    case Promote(candidate, reachable, _) =>
      && st.valid && candidate.Some? && Copy(candidate.value) != [] && Copy(candidate.value) != st.addr && reachable
    case Reboot => false
  }

  /** The event finds an address in the flash. */
  ghost predicate Loads(st: Store, e: Event) {
    e.Init? && e.initial.Some? && e.initial.value != [] && Fetch(st.flash, e.load).Address?
  }

  lemma {:induction false} StaysSynced(st: Store, es: seq<Event>)
    requires !st.valid && Clean(st, es)
    ensures Synced(After(st, es))
    decreases |es|
  {
    if es != [] {
      var n := |es| - 1;
      var before, e := After(st, es[..n]), es[n];
      if Loads(before, e) {
        LoadedIsCut(before.flash);
      } else if Saves(before, e) && e.save.Done? {
        LoadSaved(Copy(if e.Init? then e.initial.value else e.candidate.value));
      } else {
        StaysSynced(st, es[..n]);
      }
    }
  }

  lemma LoadedIsCut(f: Record)
    ensures Load(f).Address? ==> |Load(f).addr| < SERV_ADDR_MAX_LEN && Load(f).addr != []
  {
  }

  /** An initialization succeeds exactly when an address is given and the flash has one already or
      takes it, and nothing else makes an address valid. If it fails, the address it was given is
      in memory all the same, and takes the place of one that was valid. */
  lemma InitOutcome(st: Store, initial: Option<CStr>, load: LoadOutcome, save: SaveOutcome)
    ensures var (now, r) := Step(st, Init(initial, load, save));
      var given, found := initial.Some? && initial.value != [], Fetch(st.flash, load);
      && (r == OK <==> given && (found.Address? || save.Done?))
      && (r == OK ==> now.valid && now.addr == if found.Address? then found.addr else Copy(initial.value))
      && (r != OK ==> now.valid == st.valid && now.addr == if given then Copy(initial.value) else st.addr)
      && (!given || found.Address? ==> now.flash == st.flash)
  {
  }

  /** As long as no save has failed, a reboot brings the active address back from the flash; only
      the empty one, which cannot be told from none, gives way to the initial address. */
  lemma RebootRestores(st: Store, es: seq<Event>, initial: CStr, save: SaveOutcome)
    requires !st.valid && Clean(st, es) && After(st, es).valid && initial != []
    ensures var before := After(st, es);
      var (now, r) := Step(Step(before, Reboot).0, Init(Some(initial), Readable, save));
      if before.addr != [] then now == before && r == OK
      else now.addr == Copy(initial) && now.valid == save.Done?
  {
    StaysSynced(st, es);
  }

  /** If every save works, nothing is ever unclean. */
  lemma {:induction false} AllSavesWork(st: Store, es: seq<Event>)
    requires forall k :: 0 <= k < |es| ==> es[k].Reboot? || es[k].save.Done?
    ensures Clean(st, es)
    decreases |es|
  {
    if es != [] { AllSavesWork(st, es[..|es| - 1]); }
  }

  /** After a failed save, promoting the active address again succeeds without writing it: a
      reboot brings it back exactly when it is what the failed save left, or nothing can be
      loaded and it is the initial address. */
  lemma FailedSaveStays(st: Store, candidate: CStr, code: ErrorCode, left: Record, active: CStr, initial: CStr)
    requires st.valid && st.addr != [] && Copy(active) == st.addr && initial != []
    requires Copy(candidate) != [] && Copy(candidate) != st.addr
    ensures var failed := Step(st, Promote(Some(candidate), true, WriteFailed(code, left)));
      var again := Step(failed.0, Promote(Some(active), true, Done));
      var back := Step(Step(again.0, Reboot).0, Init(Some(initial), Readable, Done));
      && failed == (Store(left, st.addr, true), FlashError(code))
      && again == (failed.0, OK)
      && back.1 == OK
      && (back.0.addr == st.addr
          <==> Load(left) == Address(st.addr) || (Load(left).Missing? && Copy(initial) == st.addr))
  {
  }

  /** One corrupted byte in a saved record makes the next start use the initial address. */
  lemma CorruptionFallsBack(st: Store, i: nat, b: byte, initial: CStr, save: SaveOutcome)
    requires Sound(st.flash) && i < RECORD_LENGTH && b != st.flash[i] && initial != []
    ensures var (now, r) := Step(Store(st.flash[i := b], [], false), Init(Some(initial), Readable, save));
      now.addr == Copy(initial) && (now.valid <==> save.Done?)
  {
    OneByteChanged(st.flash, i, b);
  }

  // ----- The operations -----

  function Text(s: array?<byte>): Option<CStr>
    reads s
  {
    if s == null then None else
      var text: CStr := CString(s[..]);
      Some(text)
  }

  predicate Terminated(s: array?<byte>)
    reads s
  {
    s == null || 0 in s[..]
  }

  lemma TrimShorter(text: CStr, n: nat)
    requires n < |text| && LineEnd(text[n])
    ensures Trim(text[..n + 1]) == Trim(text[..n])
  {
    assert text[..n + 1][..n] == text[..n];
  }

  /** trim_line_end */
  method TrimLineEnd(s: array<byte>)
    requires 0 in s[..]
    modifies s
    ensures 0 in s[..] && CString(s[..]) == Trim(old(CString(s[..])))
  {
    var n := StrLen(s);
    ghost var text := s[..n];
    assert text[..n] == text;
    while n > 0 && LineEnd(s[n - 1])
      invariant n <= |text| && n < s.Length && s[n] == 0
      invariant (forall k :: 0 <= k < n ==> s[k] == text[k]) && Trim(text[..n]) == Trim(text)
    {
      n := n - 1;
      TrimShorter(text, n);
      s[n] := 0;
    }
    assert s[..][n] == 0 && s[..][..n] == text[..n];
    CStringIs(s[..], n);
    NoNul(text[..n]);
  }

  /** A copy of a string, cut and trimmed, in a fresh buffer. */
  method CopyAddr(s: array<byte>) returns (copy: array<byte>)
    requires 0 in s[..]
    ensures fresh(copy) && copy.Length == SERV_ADDR_MAX_LEN && 0 in copy[..]
    ensures CString(copy[..]) == Copy(CString(s[..]))
  {
    copy := new byte[SERV_ADDR_MAX_LEN](_ => 0);
    CopyInto(copy, s);
    TrimLineEnd(copy);
  }

  /** strncpy with room for a NUL, and the NUL. */
  method CopyInto(dst: array<byte>, src: array<byte>)
    requires dst != src && dst.Length == SERV_ADDR_MAX_LEN && 0 in src[..]
    modifies dst
    ensures dst[..] == AddrField(CString(src[..])) && 0 in dst[..]
    ensures CString(dst[..]) == Cut(CString(src[..]), SERV_ADDR_MAX_LEN - 1)
  {
    Strncpy(dst, src, SERV_ADDR_MAX_LEN - 1);
    ghost var was := dst[..];
    dst[SERV_ADDR_MAX_LEN - 1] := 0;
    assert dst[..SERV_ADDR_MAX_LEN - 1] == was[..SERV_ADDR_MAX_LEN - 1];
    assert dst[..] == AddrField(CString(src[..]));
    assert dst[..][SERV_ADDR_MAX_LEN - 1] == 0;
    PaddedString(CString(src[..]), SERV_ADDR_MAX_LEN - 1, [0]);
  }

  /** strcmp(a, b) == 0 */
  method SameString(a: array<byte>, b: array<byte>) returns (same: bool)
    requires 0 in a[..] && 0 in b[..]
    ensures same == (CString(a[..]) == CString(b[..]))
  {
    var m := StrLen(a);
    var n := StrLen(b);
    same := a[..m] == b[..n];
  }

  class AddressStore {
    /** The record at the start of the flash partition. */
    var flash: Record
    const activeAddr: array<byte>
    var activeValid: bool

    ghost predicate Valid()
      reads this, activeAddr
    {
      activeAddr.Length == SERV_ADDR_MAX_LEN && 0 in activeAddr[..]
    }

    ghost function Now(): Store
      reads this, activeAddr
    {
      Store(flash, CString(activeAddr[..]), activeValid)
    }

    /** A start with some flash contents. */
    constructor (flash: Record)
      ensures Valid() && fresh(activeAddr) && Now() == Store(flash, [], false)
    {
      this.flash := flash;
      activeAddr := new byte[SERV_ADDR_MAX_LEN](_ => 0);
      activeValid := false;
      new;
      assert activeAddr[..][0] == 0;
    }

    method SaveActiveAddrToFlash(addr: array<byte>, o: SaveOutcome) returns (r: Status)
      requires 0 in addr[..]
      modifies this`flash
      ensures (flash, r) == Save(old(flash), CString(addr[..]), o)
    {
      var recAddr := new byte[SERV_ADDR_MAX_LEN](_ => 0);
      CopyInto(recAddr, addr);
      var crc := CalcCrc(recAddr);
      match o {
        case OpenFailed(code) => return FlashError(code);
        case WriteFailed(code, left) =>
          flash := left;
          return FlashError(code);
        case Done =>
          flash := WordBytes(ACTIVE_MAGIC) + WordBytes(crc) + recAddr[..];
          return OK;
      }
    }

    /** Loads into the active address, which stays as it is if nothing can be loaded. */
    method LoadActiveAddrFromFlash(o: LoadOutcome) returns (r: Status)
      requires Valid()
      modifies activeAddr
      ensures Valid()
      ensures var loaded := Fetch(flash, o);
        if loaded.Address? then r == OK && CString(activeAddr[..]) == loaded.addr
        else r == loaded.status && r != OK && activeAddr[..] == old(activeAddr[..])
    {
      if o.Unreadable? { return FlashError(o.code); }
      var stored := flash[8..];
      var rec := new byte[SERV_ADDR_MAX_LEN](k requires 0 <= k < SERV_ADDR_MAX_LEN => stored[k]);
      assert rec[..] == stored;
      var crc := CalcCrc(rec);
      if WordAt(flash, 0) != ACTIVE_MAGIC { return ENOENT; }
      if WordAt(flash, 4) != crc { return EINVAL; }
      rec[SERV_ADDR_MAX_LEN - 1] := 0;
      ghost var text := stored[..SERV_ADDR_MAX_LEN - 1];
      assert rec[..][SERV_ADDR_MAX_LEN - 1] == 0 && rec[..][..SERV_ADDR_MAX_LEN - 1] == text;
      CStringIs(rec[..], SERV_ADDR_MAX_LEN - 1);
      if rec[0] == 0 {
        assert text[0] == 0;
        return ENOENT;
      }
      assert text[0] == rec[0];
      CopyInto(activeAddr, rec);
      return OK;
    }

    /** Makes an address the active one in memory. */
    method Activate(addr: array<byte>)
      requires Valid() && addr != activeAddr && 0 in addr[..] && |CString(addr[..])| < SERV_ADDR_MAX_LEN
      modifies activeAddr
      ensures Valid() && CString(activeAddr[..]) == CString(addr[..])
    {
      CopyInto(activeAddr, addr);
    }

    /** The first address: in memory in any case, and valid if it can be saved. */
    method StartWith(addr: array<byte>, save: SaveOutcome) returns (r: Status)
      requires Valid() && addr != activeAddr && 0 in addr[..] && |CString(addr[..])| < SERV_ADDR_MAX_LEN
      modifies this`flash, this`activeValid, activeAddr
      ensures Valid() && CString(activeAddr[..]) == CString(addr[..])
      ensures (flash, r) == Save(old(flash), CString(addr[..]), save)
      ensures activeValid == (old(activeValid) || r == OK)
    {
      Activate(addr);
      r := SaveActiveAddrToFlash(activeAddr, save);
      if r != OK { return r; }
      activeValid := true;
    }

    /** serv_addr_init */
    method Initialize(initial: array?<byte>, load: LoadOutcome, save: SaveOutcome) returns (r: Status)
      requires Valid() && Terminated(initial) && initial != activeAddr
      modifies this`flash, this`activeValid, activeAddr
      ensures Valid()
      ensures (Now(), r) == InitStep(old(Now()), old(Text(initial)), load, save)
      ensures r == OK ==>
        activeValid && (old(Fetch(flash, load)) == Address(Now().addr) || IsCopy(CString(initial[..]), Now().addr))
    {
      if initial == null || initial[0] == 0 { return EINVAL; }
      InitGives(Now(), CString(initial[..]), load, save);
      var copy := CopyAddr(initial);
      r := LoadActiveAddrFromFlash(load);
      if r == OK {
        activeValid := true;
        return OK;
      }
      r := StartWith(copy, save);
    }

    /** Another address: in memory only if it can be saved. */
    method Replace(addr: array<byte>, save: SaveOutcome) returns (r: Status)
      requires Valid() && addr != activeAddr && 0 in addr[..] && |CString(addr[..])| < SERV_ADDR_MAX_LEN
      modifies this`flash, activeAddr
      ensures Valid() && (flash, r) == Save(old(flash), CString(addr[..]), save)
      ensures CString(activeAddr[..]) == if r == OK then CString(addr[..]) else old(CString(activeAddr[..]))
    {
      r := SaveActiveAddrToFlash(addr, save);
      if r != OK { return r; }
      Activate(addr);
    }

    /** serv_addr_try_promote */
    method TryPromote(candidateAddr: array?<byte>, reachable: bool, save: SaveOutcome) returns (r: Status)
      requires Valid() && Terminated(candidateAddr) && candidateAddr != activeAddr
      modifies this`flash, activeAddr
      ensures Valid()
      ensures (Now(), r) == PromoteStep(old(Now()), old(Text(candidateAddr)), reachable, save)
      ensures r == OK ==> candidateAddr != null && IsCopy(CString(candidateAddr[..]), Now().addr)
      ensures candidateAddr != null && OnlyLineEnds(CString(candidateAddr[..])) ==> r == EINVAL
    {
      if !activeValid || candidateAddr == null { return EINVAL; }
      PromoteGives(Now(), CString(candidateAddr[..]), reachable, save);
      var candidate := CopyAddr(candidateAddr);
      CharAt(candidate[..], 0);
      if candidate[0] == 0 { return EINVAL; }
      var same := SameString(candidate, activeAddr);
      if same { return OK; }
      if !reachable { return EHOSTUNREACH; }
      r := Replace(candidate, save);
    }

    /** A reboot keeps the flash, and clears the memory. */
    method Restart()
      requires Valid()
      modifies this`activeValid, activeAddr
      ensures Valid() && Now() == Step(old(Now()), Reboot).0 == Store(old(flash), [], false)
    {
      activeValid := false;
      forall k | 0 <= k < activeAddr.Length { activeAddr[k] := 0; }
      assert activeAddr[..][0] == 0;
    }

    /** get_serv_addr */
    method GetServAddr() returns (addr: Bytes)
      requires Valid()
      ensures addr == if Now().valid then Now().addr else []
    {
      if !activeValid { return []; }
      var n := StrLen(activeAddr);
      return activeAddr[..n];
    }
  }
}
