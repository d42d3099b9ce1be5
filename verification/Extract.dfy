/**
  Safe archive extraction: contained paths, a byte budget shared by all entries, and
  an account of every entry. Decoding is abstracted to a list of entries whose
  readers deliver chunks.
 */
module Extract {
  import opened Wrappers
  import opened MachineInts

  const MAX_TOTAL_UNCOMPRESSED: u64 := 4 * 1024 * 1024 * 1024
  const MAX_EXPANSION_RATIO: nat := 100
  const COPY_CHUNK: nat := 64 * 1024

  function CapForArchiveSize(compressed: u64): u64 {
    var scaled := SatU64(compressed * MAX_EXPANSION_RATIO);
    if scaled > MAX_TOTAL_UNCOMPRESSED then scaled else MAX_TOTAL_UNCOMPRESSED
  }

  // ---- paths

  datatype Component = Normal(part: string) | CurDir | ParentDir | RootDir | Prefix(drive: string)

  type Path = seq<string>

  /** `path` lies strictly below `dest`. */
  ghost predicate Below(dest: Path, path: Path) { |dest| < |path| && path[..|dest|] == dest }

  predicate Escapes(rel: seq<Component>) { exists c | c in rel :: c.ParentDir? || c.RootDir? || c.Prefix? }

  function NormalParts(rel: seq<Component>): Path {
    if rel == [] then []
    else NormalParts(rel[..|rel| - 1]) + (var c := rel[|rel| - 1]; if c.Normal? then [c.part] else [])
  }

  /** The path an entry resolves to: its normal parts below `dest`, unless it escapes or names nothing. */
  function Resolved(dest: Path, rel: seq<Component>): Option<Path> {
    if Escapes(rel) || NormalParts(rel) == [] then None else Some(dest + NormalParts(rel))
  }

  method SafeJoin(dest: Path, rel: seq<Component>) returns (r: Option<Path>)
    ensures r == Resolved(dest, rel)
    ensures r.Some? ==> Below(dest, r.value)
  {
    var out := dest;
    var pushedAny := false;
    for k := 0 to |rel|
      invariant out == dest + NormalParts(rel[..k])
      invariant pushedAny <==> NormalParts(rel[..k]) != []
      invariant !Escapes(rel[..k])
    {
      assert rel[..k + 1] == rel[..k] + [rel[k]];
      assert rel[..k + 1][..k] == rel[..k];
      match rel[k] {
        case Normal(part) =>
          out := out + [part];
          pushedAny := true;
        case CurDir =>
        case _ =>
          assert rel[k] in rel;
          return None;
      }
    }
    assert rel[..|rel|] == rel;
    if pushedAny {
      return Some(out);
    }
    return None;
  }

  // ---- entries and the destination

  /**
    One read: `size` bytes delivered, of which `landed` reach the disk; `ok` is false when the
    write fails. A read of no bytes, or the end of the list, is the end of the entry.
   */
  datatype Read = Data(size: nat, landed: nat, ok: bool) | Broken

  datatype Kind = File | Dir | Link

  /**
    `enclosed` is what the zip reader makes of the name, `rel` the components of the name itself;
    `opens` is false when creating the file or directory fails.
   */
  datatype Entry = Entry(
    name: string,
    kind: Kind,
    rel: seq<Component>,
    enclosed: Option<seq<Component>>,
    opens: bool,
    chunks: seq<Read>)

  predicate ValidRead(r: Read) {
    r.Data? ==> r.landed <= r.size <= COPY_CHUNK && (r.ok ==> r.landed == r.size)
  }

  ghost predicate ValidEntries(entries: seq<Entry>) {
    forall e, r :: e in entries && r in e.chunks ==> ValidRead(r)
  }

  datatype Failure = Bomb | Io

  datatype Report = Report(written: nat, refused: seq<string>)

  /** The sizes of the files written, by path. */
  type Disk = map<Path, nat>

  ghost function SumOver(disk: Disk, keys: set<Path>): nat
    requires keys <= disk.Keys
  {
    if keys == {} then 0
    else
      var k :| k in keys;
      disk[k] + SumOver(disk, keys - {k})
  }

  ghost function DiskBytes(disk: Disk): nat { SumOver(disk, disk.Keys) }

  lemma {:induction false} SumSplits(disk: Disk, keys: set<Path>, k: Path)
    requires keys <= disk.Keys && k in keys
    ensures SumOver(disk, keys) == disk[k] + SumOver(disk, keys - {k})
    decreases |keys|
  {
    var j :| j in keys && SumOver(disk, keys) == disk[j] + SumOver(disk, keys - {j});
    if j != k {
      SumSplits(disk, keys - {j}, k);
      SumSplits(disk, keys - {k}, j);
      assert keys - {j} - {k} == keys - {k} - {j};
    }
  }

  lemma {:induction false} SumAgrees(a: Disk, b: Disk, keys: set<Path>)
    requires keys <= a.Keys && keys <= b.Keys && forall k :: k in keys ==> a[k] == b[k]
    ensures SumOver(a, keys) == SumOver(b, keys)
    decreases |keys|
  {
    if keys != {} {
      var k :| k in keys;
      SumSplits(a, keys, k);
      SumSplits(b, keys, k);
      SumAgrees(a, b, keys - {k});
    }
  }

  /** Setting one file's size changes the total by exactly that. */
  lemma DiskBytesUpdate(disk: Disk, p: Path, n: nat)
    ensures DiskBytes(disk[p := n]) == DiskBytes(disk) - (if p in disk then disk[p] else 0) + n
  {
    var after := disk[p := n];
    SumSplits(after, after.Keys, p);
    assert after.Keys - {p} == disk.Keys - {p};
    SumAgrees(after, disk, disk.Keys - {p});
    if p in disk {
      SumSplits(disk, disk.Keys, p);
    } else {
      assert disk.Keys - {p} == disk.Keys;
    }
  }

  /** The bytes an entry delivers before its end. */
  function Delivered(chunks: seq<Read>): nat {
    if chunks == [] || chunks[0].Broken? || chunks[0].size == 0 then 0
    else chunks[0].size + Delivered(chunks[1..])
  }

  /** Every read before the end of the entry succeeds and is written in full. */
  predicate ReadsFine(chunks: seq<Read>) {
    chunks == [] || (chunks[0].Data? && (chunks[0].size == 0 || (chunks[0].ok && ReadsFine(chunks[1..]))))
  }

  /** The budget as the code checks it: the saturated total against the cap. */
  predicate FitsCap(bytes: nat, cap: u64) { SatU64(bytes) <= cap }

  /** Saturation hides an overrun at the largest `u64` cap and at no other. */
  lemma FitsCapIff(bytes: nat, cap: u64)
    ensures FitsCap(bytes, cap) <==> bytes <= cap || cap == U64_MAX
  {}

  /** What becomes of an entry; a directory is made if its name resolves. */
  datatype Fate = Written(path: Path) | Refused | Directory(made: Option<Path>)

  function ZipFate(dest: Path, e: Entry): Fate {
    if e.kind.Link? || e.enclosed.None? then Refused
    else
      var path := Resolved(dest, e.enclosed.value);
      if e.kind.Dir? then Directory(path)
      else if path.Some? then Written(path.value)
      else Refused
  }

  function TarFate(dest: Path, e: Entry): Fate {
    if e.kind.Link? then Refused
    else
      var path := Resolved(dest, e.rel);
      if path.None? then Refused
      else if e.kind.Dir? then Directory(path)
      else Written(path.value)
  }

  /** Nothing fails in processing the entry, the budget aside. */
  predicate Fine(e: Entry, fate: Fate) {
    match fate
    case Written(_) => e.opens && ReadsFine(e.chunks)
    case Refused => true
    case Directory(made) => made.Some? ==> e.opens
  }

  ghost predicate AllFine(entries: seq<Entry>, fate: Entry -> Fate) {
    forall e :: e in entries ==> Fine(e, fate(e))
  }

  /** The report, the files with their sizes, the number of directories and the bytes charged. */
  datatype Ledger = Ledger(report: Report, files: Disk, directories: nat, bytes: nat)

  /** The ledger that the fates of the entries predict. */
  function Account(entries: seq<Entry>, fate: Entry -> Fate): (r: Ledger)
    ensures |entries| == r.report.written + |r.report.refused| + r.directories
  {
    if entries == [] then Ledger(Report(0, []), map[], 0, 0)
    else
      var before, e := Account(entries[..|entries| - 1], fate), entries[|entries| - 1];
      match fate(e)
      case Written(path) =>
        Ledger(before.report.(written := before.report.written + 1),
               before.files[path := Delivered(e.chunks)], before.directories, before.bytes + Delivered(e.chunks))
      case Refused => before.(report := before.report.(refused := before.report.refused + [e.name]))
      case Directory(_) => before.(directories := before.directories + 1)
  }

  /** The ledger after one more entry. */
  lemma AccountSnoc(entries: seq<Entry>, fate: Entry -> Fate, i: nat)
    requires i < |entries|
    ensures var before, after, e := Account(entries[..i], fate), Account(entries[..i + 1], fate), entries[i];
            match fate(e)
            case Written(path) =>
              && after.report == before.report.(written := before.report.written + 1)
              && after.files == before.files[path := Delivered(e.chunks)]
              && after.bytes == before.bytes + Delivered(e.chunks)
            case Refused =>
              after == before.(report := before.report.(refused := before.report.refused + [e.name]))
            case Directory(_) => after == before.(directories := before.directories + 1)
  {
    assert entries[..i + 1][..i] == entries[..i];
  }

  lemma {:induction false} BytesGrow(entries: seq<Entry>, fate: Entry -> Fate, i: nat)
    requires i <= |entries|
    ensures Account(entries[..i], fate).bytes <= Account(entries, fate).bytes
    decreases |entries| - i
  {
    if i < |entries| {
      AccountSnoc(entries, fate, i);
      BytesGrow(entries, fate, i + 1);
    } else {
      assert entries[..i] == entries;
    }
  }

  /** An entry that fails, or that overruns the cap, rules out success of the whole. */
  lemma StopsWhole(entries: seq<Entry>, fate: Entry -> Fate, i: nat, cap: u64)
    requires i < |entries|
    requires !Fine(entries[i], fate(entries[i])) || !FitsCap(Account(entries[..i + 1], fate).bytes, cap)
    ensures !(AllFine(entries, fate) && FitsCap(Account(entries, fate).bytes, cap))
  {
    BytesGrow(entries, fate, i + 1);
    assert entries[i] in entries;
  }

  /** A path holds a file exactly if some entry is written to it, with the size of the last such entry. */
  lemma {:induction false} LastWriteWins(entries: seq<Entry>, fate: Entry -> Fate, p: Path) returns (k: int)
    ensures var files := Account(entries, fate).files;
            if p in files then
              && 0 <= k < |entries| && fate(entries[k]) == Written(p) && files[p] == Delivered(entries[k].chunks)
              && forall j :: k < j < |entries| ==> fate(entries[j]) != Written(p)
            else forall j :: 0 <= j < |entries| ==> fate(entries[j]) != Written(p)
  {
    k := -1;
    if entries != [] {
      var n := |entries| - 1;
      k := LastWriteWins(entries[..n], fate, p);
      if fate(entries[n]) == Written(p) {
        k := n;
      }
    }
  }

  // ---- extraction

  lemma NothingAccounted(fate: Entry -> Fate, cap: u64)
    ensures Account([], fate) == Ledger(Report(0, []), map[], 0, 0) && FitsCap(0, cap) && DiskBytes(map[]) == 0
  {}

  /** The destination and the running total of one extraction. */
  class Extraction {
    var disk: Disk
    var total: u64
    /** All bytes charged, without saturation. */
    ghost var charged: nat
    /** The most bytes ever on disk. */
    ghost var peak: nat

    constructor ()
      ensures disk == map[] && total == 0 && charged == 0 && peak == 0
    {
      disk, total, charged, peak := map[], 0, 0, 0;
    }

    /** The bytes on disk have been charged and, unless the cap is the largest `u64`, have never exceeded it. */
    ghost predicate Within(cap: u64)
      reads this
    {
      && total == SatU64(charged)
      && DiskBytes(disk) <= charged && DiskBytes(disk) <= peak
      && (cap < U64_MAX ==> peak <= cap)
    }

    method Create(path: Path, ghost cap: u64)
      requires Within(cap)
      modifies `disk
      ensures Within(cap) && disk == old(disk)[path := 0]
    {
      DiskBytesUpdate(disk, path, 0);
      disk := disk[path := 0];
    }

    method Append(path: Path, n: nat, ghost cap: u64)
      requires total == SatU64(charged) && DiskBytes(disk) <= peak && (cap < U64_MAX ==> peak <= cap)
      requires path in disk && DiskBytes(disk) + n <= charged && FitsCap(charged, cap)
      modifies `disk, `peak
      ensures Within(cap) && disk == old(disk)[path := old(disk)[path] + n]
      ensures peak >= old(peak)
    {
      FitsCapIff(charged, cap);
      DiskBytesUpdate(disk, path, disk[path] + n);
      disk := disk[path := disk[path] + n];
      if DiskBytes(disk) > peak {
        peak := DiskBytes(disk);
      }
    }

    /** Streams the chunks into `path`, charging each before it lands. */
    method WriteCapped(path: Path, chunks: seq<Read>, opens: bool, cap: u64) returns (r: Result<(), Failure>)
      requires Within(cap) && FitsCap(charged, cap)
      requires forall c :: c in chunks ==> ValidRead(c)
      modifies this
      ensures Within(cap) && peak >= old(peak)
      ensures old(disk).Keys <= disk.Keys <= old(disk).Keys + {path}
      ensures forall p :: p in old(disk) && p != path ==> disk[p] == old(disk)[p]
      ensures r.Ok? <==> opens && ReadsFine(chunks) && FitsCap(old(charged) + Delivered(chunks), cap)
      ensures r.Ok? ==> disk == old(disk)[path := Delivered(chunks)] && charged == old(charged) + Delivered(chunks)
      ensures r == Err(Bomb) ==> charged > cap
      ensures r == Err(Io) ==> !(opens && ReadsFine(chunks))
    {
      hide DiskBytes, FitsCap;
      if !opens {
        return Err(Io);
      }
      Create(path, cap);
      for k := 0 to |chunks|
        invariant Within(cap) && FitsCap(charged, cap) && peak >= old(peak)
        invariant disk.Keys == old(disk).Keys + {path}
        invariant forall p :: p in old(disk) && p != path ==> disk[p] == old(disk)[p]
        invariant charged == old(charged) + disk[path]
        invariant Delivered(chunks) == disk[path] + Delivered(chunks[k..])
        invariant ReadsFine(chunks) <==> ReadsFine(chunks[k..])
      {
        assert chunks[k..][1..] == chunks[k + 1..];
        assert chunks[k] in chunks;
        if chunks[k].Broken? {
          return Err(Io);
        }
        if chunks[k].size == 0 {
          return Ok(());
        }
        charged := charged + chunks[k].size;
        total := SatU64(total + chunks[k].size);
        FitsCapIff(charged, cap);
        FitsCapIff(old(charged) + Delivered(chunks), cap);
        if total > cap {
          return Err(Bomb);
        }
        Append(path, chunks[k].landed, cap);
        if !chunks[k].ok {
          return Err(Io);
        }
      }
      r := Ok(());
    }

    /** Zip entries: links and escaping names are refused, directories made, files written. */
    method ExtractZip(entries: seq<Entry>, dest: Path, cap: u64) returns (r: Result<Report, Failure>)
      requires disk == map[] && total == 0 && charged == 0 && peak == 0
      requires ValidEntries(entries)
      modifies this
      ensures Within(cap) && peak >= old(peak)
      ensures forall p :: p in disk ==> Below(dest, p)
      ensures var fate := (e: Entry) => ZipFate(dest, e); var account := Account(entries, fate);
              && (r.Ok? <==> AllFine(entries, fate) && FitsCap(account.bytes, cap))
              && (r.Ok? ==> r.value == account.report && disk == account.files && charged == account.bytes)
              && (r == Err(Io) ==> !AllFine(entries, fate))
      ensures r == Err(Bomb) ==> charged > cap
    {
      hide Resolved, Escapes, NormalParts, Account, FitsCap, ReadsFine, Delivered;
      var report := Report(0, []);
      ghost var fate := (e: Entry) => ZipFate(dest, e);
      NothingAccounted(fate, cap);
      for i := 0 to |entries|
        invariant Within(cap) && FitsCap(charged, cap)
        invariant forall p :: p in disk ==> Below(dest, p)
        invariant report == Account(entries[..i], fate).report && disk == Account(entries[..i], fate).files
        invariant charged == Account(entries[..i], fate).bytes
        invariant forall k :: 0 <= k < i ==> Fine(entries[k], fate(entries[k]))
      {
        var entry := entries[i];
        AccountSnoc(entries, fate, i);
        assert entry in entries;
        if !Fine(entry, fate(entry)) || !FitsCap(Account(entries[..i + 1], fate).bytes, cap) {
          StopsWhole(entries, fate, i, cap);
        }
        if entry.kind.Link? {
          report := report.(refused := report.refused + [entry.name]);
          continue;
        }
        if entry.enclosed.None? {
          report := report.(refused := report.refused + [entry.name]);
          continue;
        }
        var path := SafeJoin(dest, entry.enclosed.value);
        if entry.kind.Dir? {
          if path.Some? && !entry.opens {
            return Err(Io);
          }
          continue;
        }
        if path.None? {
          report := report.(refused := report.refused + [entry.name]);
          continue;
        }
        var w := WriteCapped(path.value, entry.chunks, entry.opens, cap);
        if w.Err? {
          return Err(w.error);
        }
        report := report.(written := report.written + 1);
      }
      assert entries[..|entries|] == entries;
      r := Ok(report);
    }

    /** Tar entries: links are refused before the path is looked at, then escaping paths, directories included. */
    method ExtractTarGz(entries: seq<Entry>, dest: Path, cap: u64) returns (r: Result<Report, Failure>)
      requires disk == map[] && total == 0 && charged == 0 && peak == 0
      requires ValidEntries(entries)
      modifies this
      ensures Within(cap) && peak >= old(peak)
      ensures forall p :: p in disk ==> Below(dest, p)
      ensures var fate := (e: Entry) => TarFate(dest, e); var account := Account(entries, fate);
              && (r.Ok? <==> AllFine(entries, fate) && FitsCap(account.bytes, cap))
              && (r.Ok? ==> r.value == account.report && disk == account.files && charged == account.bytes)
              && (r == Err(Io) ==> !AllFine(entries, fate))
      ensures r == Err(Bomb) ==> charged > cap
    {
      hide Resolved, Escapes, NormalParts, Account, FitsCap, ReadsFine, Delivered;
      var report := Report(0, []);
      ghost var fate := (e: Entry) => TarFate(dest, e);
      NothingAccounted(fate, cap);
      for i := 0 to |entries|
        invariant Within(cap) && FitsCap(charged, cap)
        invariant forall p :: p in disk ==> Below(dest, p)
        invariant report == Account(entries[..i], fate).report && disk == Account(entries[..i], fate).files
        invariant charged == Account(entries[..i], fate).bytes
        invariant forall k :: 0 <= k < i ==> Fine(entries[k], fate(entries[k]))
      {
        var entry := entries[i];
        AccountSnoc(entries, fate, i);
        assert entry in entries;
        if !Fine(entry, fate(entry)) || !FitsCap(Account(entries[..i + 1], fate).bytes, cap) {
          StopsWhole(entries, fate, i, cap);
        }
        if entry.kind.Link? {
          report := report.(refused := report.refused + [entry.name]);
          continue;
        }
        var path := SafeJoin(dest, entry.rel);
        if path.None? {
          report := report.(refused := report.refused + [entry.name]);
          continue;
        }
        if entry.kind.Dir? {
          if !entry.opens {
            return Err(Io);
          }
          continue;
        }
        var w := WriteCapped(path.value, entry.chunks, entry.opens, cap);
        if w.Err? {
          return Err(w.error);
        }
        report := report.(written := report.written + 1);
      }
      assert entries[..|entries|] == entries;
      r := Ok(report);
    }
  }

  // ---- laws

  lemma {:induction false} NormalPartsOf(rel: seq<Component>, p: string)
    ensures p in NormalParts(rel) <==> Component.Normal(p) in rel
  {
    if rel != [] {
      NormalPartsOf(rel[..|rel| - 1], p);
      assert rel == rel[..|rel| - 1] + [rel[|rel| - 1]];
    }
  }

  /** A name resolves exactly when it has a normal part and nothing that climbs out, and then to a path below `dest`. */
  lemma ResolvesIff(dest: Path, rel: seq<Component>)
    ensures Resolved(dest, rel).Some? <==>
            (exists p :: Component.Normal(p) in rel) && forall c :: c in rel ==> c.Normal? || c.CurDir?
    ensures Resolved(dest, rel).Some? ==> Below(dest, Resolved(dest, rel).value)
  {
    var parts := NormalParts(rel);
    if parts != [] {
      assert parts[0] in parts;
      NormalPartsOf(rel, parts[0]);
    }
    forall p | Component.Normal(p) in rel ensures parts != [] {
      NormalPartsOf(rel, p);
    }
  }

  /** The cap derived from an archive's size can be overrun detectably unless the ratio saturates. */
  lemma CapIsDetectableIff(compressed: u64)
    ensures CapForArchiveSize(compressed) < U64_MAX <==> compressed * MAX_EXPANSION_RATIO < U64_MAX
    ensures compressed * MAX_EXPANSION_RATIO <= U64_MAX ==>
              CapForArchiveSize(compressed) >= compressed * MAX_EXPANSION_RATIO
    ensures CapForArchiveSize(compressed) >= MAX_TOTAL_UNCOMPRESSED
    ensures CapForArchiveSize(compressed) > MAX_TOTAL_UNCOMPRESSED ==>
              CapForArchiveSize(compressed) <= compressed * MAX_EXPANSION_RATIO
  {}
}
