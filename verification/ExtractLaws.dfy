/**
  What extraction makes of links, directories and names, in the fields of the entries.
 */
module ExtractLaws {
  import opened Wrappers
  import opened MachineInts
  import opened Sequences
  import opened Extract

  // ---- names

  /** Some normal part, and nothing but normal and current-directory parts. */
  ghost predicate IsContained(rel: seq<Component>) {
    (exists p :: Component.Normal(p) in rel) && forall c :: c in rel ==> c.Normal? || c.CurDir?
  }

  /** The normal parts are taken in the order of the name. */
  lemma {:induction false} PartsInOrder(a: seq<Component>, b: seq<Component>)
    ensures NormalParts(a + b) == NormalParts(a) + NormalParts(b)
  {
    if b == [] {
      assert a + b == a;
    } else {
      var n := |b| - 1;
      hide NormalParts;
      PartsInOrder(a, b[..n]);
      assert b == b[..n] + [b[n]] && a + b == (a + b[..n]) + [b[n]];
      PartsOfLonger(b[..n], b[n]);
      PartsOfLonger(a + b[..n], b[n]);
    }
  }

  lemma PartsOfLonger(a: seq<Component>, c: Component)
    ensures NormalParts(a + [c]) == NormalParts(a) + if c.Normal? then [c.part] else []
  {
    assert (a + [c])[..|a|] == a;
  }

  lemma PartOfOne(c: Component)
    ensures NormalParts([c]) == if c.Normal? then [c.part] else []
  {
    assert [c][..0] == [];
  }

  // ---- fates

  ghost predicate ZipRefuses(e: Entry) {
    e.kind.Link? || e.enclosed.None? || (e.kind.File? && !IsContained(e.enclosed.value))
  }

  ghost predicate ZipWrites(e: Entry) { e.kind.File? && e.enclosed.Some? && IsContained(e.enclosed.value) }

  ghost predicate TarRefuses(e: Entry) { e.kind.Link? || !IsContained(e.rel) }

  ghost predicate TarWrites(e: Entry) { e.kind.File? && IsContained(e.rel) }

  /** Links are refused whatever their name; only regular files are written, below the destination. */
  lemma ZipFateIff(dest: Path, e: Entry)
    ensures ZipFate(dest, e).Refused? <==> ZipRefuses(e)
    ensures ZipFate(dest, e).Written? <==> ZipWrites(e)
    ensures ZipFate(dest, e).Written? ==> ZipFate(dest, e).path == dest + NormalParts(e.enclosed.value)
  {
    if e.enclosed.Some? {
      ResolvesIff(dest, e.enclosed.value);
    }
    hide Escapes, NormalParts;
  }

  lemma TarFateIff(dest: Path, e: Entry)
    ensures TarFate(dest, e).Refused? <==> TarRefuses(e)
    ensures TarFate(dest, e).Written? <==> TarWrites(e)
    ensures TarFate(dest, e).Written? ==> TarFate(dest, e).path == dest + NormalParts(e.rel)
  {
    ResolvesIff(dest, e.rel);
    hide Escapes, NormalParts;
  }

  // ---- ledgers

  function ZipLedger(entries: seq<Entry>, dest: Path): Ledger { Account(entries, (e: Entry) => ZipFate(dest, e)) }

  function TarLedger(entries: seq<Entry>, dest: Path): Ledger { Account(entries, (e: Entry) => TarFate(dest, e)) }

  /** The refused names are those of the refused entries, in order. */
  lemma {:induction false} RefusedByFate(entries: seq<Entry>, fate: Entry -> Fate)
    ensures Account(entries, fate).report.refused
            == Map((e: Entry) => e.name, Filter((e: Entry) => fate(e).Refused?, entries))
  {
    var refused := (e: Entry) => fate(e).Refused?;
    if entries != [] {
      var init, last := entries[..|entries| - 1], entries[|entries| - 1];
      RefusedByFate(init, fate);
      hide Account, Map, Filter;
      assert entries == init + [last];
      AccountAppend(init, last, fate);
      FilterSnoc(refused, init, last);
      MapSnoc((e: Entry) => e.name, Filter(refused, init), last);
    }
  }

  /** Written files and directories are counted by their fate. */
  lemma {:induction false} CountedByFate(entries: seq<Entry>, fate: Entry -> Fate)
    ensures Account(entries, fate).report.written == |Filter((e: Entry) => fate(e).Written?, entries)|
    ensures Account(entries, fate).directories == |Filter((e: Entry) => fate(e).Directory?, entries)|
  {
    var written, directory := (e: Entry) => fate(e).Written?, (e: Entry) => fate(e).Directory?;
    if entries != [] {
      var init, last := entries[..|entries| - 1], entries[|entries| - 1];
      CountedByFate(init, fate);
      hide Account, Filter;
      assert entries == init + [last];
      AccountAppend(init, last, fate);
      FilterSnoc(written, init, last);
      FilterSnoc(directory, init, last);
    }
  }

  lemma FilterSnoc<T>(p: T -> bool, s: seq<T>, x: T)
    ensures Filter(p, s + [x]) == if p(x) then Filter(p, s) + [x] else Filter(p, s)
  {
    FilterAppend(p, s, [x]);
  }

  /** The ledger after one more entry. */
  lemma AccountAppend(entries: seq<Entry>, e: Entry, fate: Entry -> Fate)
    ensures var before, after := Account(entries, fate), Account(entries + [e], fate);
            match fate(e)
            case Written(path) =>
              && after.report == before.report.(written := before.report.written + 1)
              && after.directories == before.directories
              && after.files == before.files[path := Delivered(e.chunks)]
              && after.bytes == before.bytes + Delivered(e.chunks)
            case Refused =>
              after == before.(report := before.report.(refused := before.report.refused + [e.name]))
            case Directory(_) => after == before.(directories := before.directories + 1)
  {
    assert (entries + [e])[..|entries|] == entries;
  }

  lemma {:induction false} MapSnoc<A, B>(f: A -> B, s: seq<A>, x: A)
    ensures Map(f, s + [x]) == Map(f, s) + [f(x)]
  {}

  ghost predicate AgreeOnFiles(a: Ledger, b: Ledger) {
    a.files == b.files && a.bytes == b.bytes && a.report.written == b.report.written
  }

  /** Two archives that agree on the files still do after one more entry, which may be left out if it is not written. */
  lemma AgreeWithOneMore(all: seq<Entry>, kept: seq<Entry>, e: Entry, fate: Entry -> Fate)
    requires AgreeOnFiles(Account(all, fate), Account(kept, fate))
    ensures AgreeOnFiles(Account(all + [e], fate), Account(kept + [e], fate))
    ensures !fate(e).Written? ==> AgreeOnFiles(Account(all + [e], fate), Account(kept, fate))
  {
    hide Account;
    AccountAppend(all, e, fate);
    AccountAppend(kept, e, fate);
  }

  /** Entries that are not written leave files, sizes, written count and bytes as they are. */
  lemma {:induction false} UnwrittenDoNotMatter(entries: seq<Entry>, fate: Entry -> Fate, keep: Entry -> bool)
    requires forall e :: e in entries && fate(e).Written? ==> keep(e)
    ensures AgreeOnFiles(Account(entries, fate), Account(Filter(keep, entries), fate))
  {
    if entries != [] {
      var n := |entries| - 1;
      var init, last := entries[..n], entries[n];
      UnwrittenDoNotMatter(init, fate, keep);
      hide Account, Filter, AgreeOnFiles;
      assert entries == init + [last];
      FilterSnoc(keep, init, last);
      AgreeWithOneMore(init, Filter(keep, init), last, fate);
    }
  }

  /**
    Links. In either format every link's name is refused, and the files, sizes, bytes and written count
    are those of the archive without its links.
   */
  lemma LinksAreRefused(entries: seq<Entry>, dest: Path)
    ensures var rest := Filter((e: Entry) => !e.kind.Link?, entries);
            && AgreeOnFiles(ZipLedger(entries, dest), ZipLedger(rest, dest))
            && AgreeOnFiles(TarLedger(entries, dest), TarLedger(rest, dest))
    ensures forall e :: e in entries && e.kind.Link? ==>
              e.name in ZipLedger(entries, dest).report.refused && e.name in TarLedger(entries, dest).report.refused
  {
    var zip, tar := (e: Entry) => ZipFate(dest, e), (e: Entry) => TarFate(dest, e);
    forall e ensures (ZipFate(dest, e).Refused? <==> ZipRefuses(e)) && (ZipFate(dest, e).Written? <==> ZipWrites(e)) {
      ZipFateIff(dest, e);
    }
    forall e ensures (TarFate(dest, e).Refused? <==> TarRefuses(e)) && (TarFate(dest, e).Written? <==> TarWrites(e)) {
      TarFateIff(dest, e);
    }
    hide ZipFate, TarFate, IsContained, Account;
    UnwrittenDoNotMatter(entries, zip, (e: Entry) => !e.kind.Link?);
    UnwrittenDoNotMatter(entries, tar, (e: Entry) => !e.kind.Link?);
    forall e | e in entries && e.kind.Link?
      ensures e.name in ZipLedger(entries, dest).report.refused && e.name in TarLedger(entries, dest).report.refused
    {
      RefusedIsListed(entries, zip, e);
      RefusedIsListed(entries, tar, e);
    }
  }

  lemma RefusedIsListed(entries: seq<Entry>, fate: Entry -> Fate, e: Entry)
    requires e in entries && fate(e).Refused?
    ensures e.name in Account(entries, fate).report.refused
  {
    RefusedByFate(entries, fate);
    hide Account;
    var refused := Filter((x: Entry) => fate(x).Refused?, entries);
    var k :| 0 <= k < |refused| && refused[k] == e;
    assert Map((x: Entry) => x.name, refused)[k] == e.name;
  }

  /** Directories and refused names yield no file either: the files are those of the contained regular entries. */
  lemma OnlyRegularEntriesAreWritten(entries: seq<Entry>, dest: Path)
    ensures AgreeOnFiles(ZipLedger(entries, dest), ZipLedger(Filter(e => ZipWrites(e), entries), dest))
    ensures AgreeOnFiles(TarLedger(entries, dest), TarLedger(Filter(e => TarWrites(e), entries), dest))
    ensures ZipLedger(entries, dest).report.written == |Filter(e => ZipWrites(e), entries)|
    ensures TarLedger(entries, dest).report.written == |Filter(e => TarWrites(e), entries)|
    ensures ZipLedger(entries, dest).report.refused
            == Map((e: Entry) => e.name, Filter(e => ZipRefuses(e), entries))
    ensures TarLedger(entries, dest).report.refused
            == Map((e: Entry) => e.name, Filter(e => TarRefuses(e), entries))
  {
    var zip, tar := (e: Entry) => ZipFate(dest, e), (e: Entry) => TarFate(dest, e);
    forall e ensures (ZipFate(dest, e).Refused? <==> ZipRefuses(e)) && (ZipFate(dest, e).Written? <==> ZipWrites(e)) {
      ZipFateIff(dest, e);
    }
    forall e ensures (TarFate(dest, e).Refused? <==> TarRefuses(e)) && (TarFate(dest, e).Written? <==> TarWrites(e)) {
      TarFateIff(dest, e);
    }
    hide ZipFate, TarFate, ZipWrites, TarWrites, ZipRefuses, TarRefuses, Account;
    UnwrittenDoNotMatter(entries, zip, e => ZipWrites(e));
    UnwrittenDoNotMatter(entries, tar, e => TarWrites(e));
    RefusedByFate(entries, zip);
    RefusedByFate(entries, tar);
    CountedByFate(entries, zip);
    CountedByFate(entries, tar);
    SameFilter((e: Entry) => zip(e).Written?, e => ZipWrites(e), entries);
    SameFilter((e: Entry) => tar(e).Written?, e => TarWrites(e), entries);
    SameFilter((e: Entry) => zip(e).Refused?, e => ZipRefuses(e), entries);
    SameFilter((e: Entry) => tar(e).Refused?, e => TarRefuses(e), entries);
  }

  lemma {:induction false} SameFilter<T>(p: T -> bool, q: T -> bool, s: seq<T>)
    requires forall x :: x in s ==> p(x) == q(x)
    ensures Filter(p, s) == Filter(q, s)
  {
    if s != [] {
      SameFilter(p, q, s[1..]);
    }
  }

  // ---- what an entry delivers

  ghost function Total(chunks: seq<Read>): nat {
    if chunks == [] then 0
    else Total(chunks[..|chunks| - 1]) + if chunks[|chunks| - 1].Data? then chunks[|chunks| - 1].size else 0
  }

  /** The entry ends at read `n`: at the first failing or empty one, or after the last. */
  ghost predicate EndsAt(chunks: seq<Read>, n: nat) {
    && n <= |chunks| && (n < |chunks| ==> chunks[n].Broken? || chunks[n].size == 0)
    && forall k :: 0 <= k < n ==> chunks[k].Data? && chunks[k].size > 0
  }

  /** What is delivered are the bytes before the end; reading is fine if no read or write up to it fails. */
  lemma {:induction false} DeliveredUpToEnd(chunks: seq<Read>) returns (n: nat)
    ensures EndsAt(chunks, n) && Delivered(chunks) == Total(chunks[..n])
    ensures ReadsFine(chunks) <==> (n < |chunks| ==> chunks[n].Data?) && forall k :: 0 <= k < n ==> chunks[k].ok
  {
    n := 0;
    if chunks != [] && chunks[0].Data? && chunks[0].size > 0 {
      var m := DeliveredUpToEnd(chunks[1..]);
      n := m + 1;
      assert forall k :: 1 <= k < n ==> chunks[k] == chunks[1..][k - 1];
      assert chunks[..n] == [chunks[0]] + chunks[1..][..m];
      TotalCons(chunks[0], chunks[1..][..m]);
    } else {
      assert chunks[..0] == [];
    }
  }

  lemma {:induction false} TotalCons(first: Read, rest: seq<Read>)
    requires first.Data?
    ensures Total([first] + rest) == first.size + Total(rest)
  {
    var all := [first] + rest;
    if rest == [] {
      assert all[..0] == [];
    } else {
      TotalCons(first, rest[..|rest| - 1]);
      assert all[..|all| - 1] == [first] + rest[..|rest| - 1];
    }
  }

  lemma EndIsUnique(chunks: seq<Read>, m: nat, n: nat)
    requires EndsAt(chunks, m) && EndsAt(chunks, n)
    ensures m == n
  {}

  /** Every read up to the end succeeds and is written in full. */
  ghost predicate IsRead(e: Entry) {
    e.opens && exists n: nat :: EndsAt(e.chunks, n) && (n < |e.chunks| ==> e.chunks[n].Data?)
                                && forall k :: 0 <= k < n ==> e.chunks[k].ok
  }

  lemma IsReadIff(e: Entry)
    ensures IsRead(e) <==> e.opens && ReadsFine(e.chunks)
  {
    var n := DeliveredUpToEnd(e.chunks);
    forall m: nat | EndsAt(e.chunks, m) ensures m == n {
      EndIsUnique(e.chunks, m, n);
    }
    hide ReadsFine;
  }

  /** What an extraction needs to go through, the budget aside: regular files are read, directories are made. */
  lemma AllFineIff(entries: seq<Entry>, dest: Path)
    ensures AllFine(entries, (e: Entry) => ZipFate(dest, e)) <==>
            forall e :: e in entries ==>
              && (ZipWrites(e) ==> IsRead(e))
              && (e.kind.Dir? && e.enclosed.Some? && IsContained(e.enclosed.value) ==> e.opens)
    ensures AllFine(entries, (e: Entry) => TarFate(dest, e)) <==>
            forall e :: e in entries ==>
              (TarWrites(e) ==> IsRead(e)) && (e.kind.Dir? && IsContained(e.rel) ==> e.opens)
  {
    forall e: Entry
      ensures Fine(e, ZipFate(dest, e)) <==>
              && (ZipWrites(e) ==> IsRead(e))
              && (e.kind.Dir? && e.enclosed.Some? && IsContained(e.enclosed.value) ==> e.opens)
      ensures Fine(e, TarFate(dest, e)) <==>
              (TarWrites(e) ==> IsRead(e)) && (e.kind.Dir? && IsContained(e.rel) ==> e.opens)
    {
      IsReadIff(e);
      ZipFateIff(dest, e);
      TarFateIff(dest, e);
      if e.enclosed.Some? {
        ResolvesIff(dest, e.enclosed.value);
      }
      ResolvesIff(dest, e.rel);
      hide IsRead, ReadsFine, Resolved;
    }
    hide Fine, ZipFate, TarFate, ZipWrites, TarWrites, IsRead, IsContained;
  }
}
