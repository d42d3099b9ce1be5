/**
  The stage fingerprints: the sorted, separator-terminated encoding that is hashed.
  Texts are byte strings and the hash itself is not modelled.
 */
module Fingerprint {
  import opened MachineInts
  import opened Sequences
  import opened Sorting
  import opened Numerals

  type Byte = b: int | 0 <= b < 256
  type Text = seq<Byte>

  const SEP: Byte := 0x1f
  const COLON: Byte := 58

  /** Byte-wise lexicographic order. */
  predicate LexLe(x: Text, y: Text) {
    x == [] || (y != [] && (x[0] < y[0] || (x[0] == y[0] && LexLe(x[1..], y[1..]))))
  }

  lemma LexLeIsTotal()
    ensures TotalPreorder(LexLe) && Antisymmetric(LexLe)
  {
    forall x, y ensures LexLe(x, y) || LexLe(y, x) { LexTotal(x, y); }
    forall x, y, z | LexLe(x, y) && LexLe(y, z) ensures LexLe(x, z) { LexTransitive(x, y, z); }
    forall x, y | LexLe(x, y) && LexLe(y, x) ensures x == y { LexAntisymmetric(x, y); }
  }

  lemma {:induction false} LexTotal(x: Text, y: Text)
    ensures LexLe(x, y) || LexLe(y, x)
  {
    if x != [] && y != [] { LexTotal(x[1..], y[1..]); }
  }

  lemma {:induction false} LexTransitive(x: Text, y: Text, z: Text)
    requires LexLe(x, y) && LexLe(y, z)
    ensures LexLe(x, z)
  {
    if x != [] && x[0] == y[0] == z[0] { LexTransitive(x[1..], y[1..], z[1..]); }
  }

  lemma {:induction false} LexAntisymmetric(x: Text, y: Text)
    requires LexLe(x, y) && LexLe(y, x)
    ensures x == y
  {
    if x != [] {
      LexAntisymmetric(x[1..], y[1..]);
      assert x == [x[0]] + x[1..] && y == [y[0]] + y[1..];
    }
  }

  // ---- the encoding

  function Encode(parts: seq<Text>): Text {
    if parts == [] then [] else parts[0] + [SEP] + Encode(parts[1..])
  }

  function PreImage(parts: seq<Text>): Text { Encode(StableSort(LexLe, parts)) }

  lemma {:induction false} EncodeAppend(a: seq<Text>, b: seq<Text>)
    ensures Encode(a + b) == Encode(a) + Encode(b)
  {
    if a == [] {
      assert a + b == b;
    } else {
      EncodeAppend(a[1..], b);
      assert (a + b)[1..] == a[1..] + b;
    }
  }

  lemma EncodeSnoc(parts: seq<Text>, p: Text)
    ensures Encode(parts + [p]) == Encode(parts) + p + [SEP]
  {
    EncodeAppend(parts, [p]);
    var one: seq<Text> := [p];
    assert one[1..] == [];
    assert Encode(one) == p + [SEP];
  }

  /** The bytes fed to the hasher. */
  method HashedBytes(parts: seq<Text>) returns (bytes: Text)
    ensures bytes == PreImage(parts)
  {
    hide LexLe, StableSort;
    var sorted := StableSort(LexLe, parts);
    bytes := [];
    for k := 0 to |sorted|
      invariant bytes == Encode(sorted[..k])
    {
      assert sorted[..k + 1] == sorted[..k] + [sorted[k]];
      EncodeSnoc(sorted[..k], sorted[k]);
      bytes := bytes + sorted[k];
      bytes := bytes + [SEP];
    }
    assert sorted[..|sorted|] == sorted;
  }

  /** The order of the parts does not matter. */
  lemma PreImagePermuted(ps: seq<Text>, qs: seq<Text>)
    requires multiset(ps) == multiset(qs)
    ensures PreImage(ps) == PreImage(qs)
  {
    LexLeIsTotal();
    SortPermuted(LexLe, ps, qs);
  }

  // ---- what the encoding determines

  ghost predicate SepFree(parts: seq<Text>) { forall k :: 0 <= k < |parts| ==> SEP !in parts[k] }

  lemma {:induction false} FirstPiece(p: Text, x: Text, q: Text, y: Text)
    requires SEP !in p && SEP !in q && p + [SEP] + x == q + [SEP] + y
    ensures p == q && x == y
  {
    var whole := p + [SEP] + x;
    assert whole[|p|] == SEP && whole[|q|] == SEP;
    assert forall k :: 0 <= k < |p| ==> whole[k] == p[k] != SEP;
    assert forall k :: 0 <= k < |q| ==> whole[k] == q[k] != SEP;
    assert |p| == |q|;
    assert p == whole[..|p|] == q;
    assert x == whole[|p| + 1..] == y;
  }

  lemma {:induction false} EncodeInjective(ps: seq<Text>, qs: seq<Text>)
    requires SepFree(ps) && SepFree(qs) && Encode(ps) == Encode(qs)
    ensures ps == qs
  {
    if ps != [] && qs != [] {
      FirstPiece(ps[0], Encode(ps[1..]), qs[0], Encode(qs[1..]));
      EncodeInjective(ps[1..], qs[1..]);
      assert ps == [ps[0]] + ps[1..] && qs == [qs[0]] + qs[1..];
    }
  }

  /** A text cut at its separators. */
  function Pieces(t: Text): (r: seq<Text>)
    ensures r != [] && SepFree(r)
  {
    if t == [] then [[]]
    else
      var rest := Pieces(t[1..]);
      if t[0] == SEP then [[]] + rest else [[t[0]] + rest[0]] + rest[1..]
  }

  function AllPieces(parts: seq<Text>): (r: seq<Text>)
    ensures SepFree(r)
  {
    if parts == [] then [] else Pieces(parts[0]) + AllPieces(parts[1..])
  }

  lemma {:induction false} EncodePieces(t: Text)
    ensures Encode(Pieces(t)) == t + [SEP]
  {
    if t == [] {
      assert Encode([[]]) == [SEP];
    } else {
      var rest := Pieces(t[1..]);
      EncodePieces(t[1..]);
      assert rest == [rest[0]] + rest[1..];
      assert t == [t[0]] + t[1..];
      if t[0] == SEP {
        assert ([[]] + rest)[1..] == rest;
        assert Encode(Pieces(t)) == [] + [SEP] + Encode(rest);
      } else {
        var first := [t[0]] + rest[0];
        assert ([first] + rest[1..])[1..] == rest[1..];
        var tail := Encode(rest[1..]);
        assert Encode(rest) == rest[0] + [SEP] + tail;
        assert Encode(Pieces(t)) == first + [SEP] + tail == [t[0]] + (rest[0] + [SEP] + tail);
        assert [t[0]] + (t[1..] + [SEP]) == t + [SEP];
      }
    }
  }

  lemma {:induction false} EncodeAllPieces(parts: seq<Text>)
    ensures Encode(AllPieces(parts)) == Encode(parts)
  {
    if parts != [] {
      EncodeAllPieces(parts[1..]);
      EncodePieces(parts[0]);
      EncodeAppend(Pieces(parts[0]), AllPieces(parts[1..]));
    }
  }

  lemma {:induction false} PiecesOfSepFree(t: Text)
    requires SEP !in t
    ensures Pieces(t) == [t]
  {
    if t != [] {
      PiecesOfSepFree(t[1..]);
      assert t == [t[0]] + t[1..];
    }
  }

  lemma {:induction false} AllPiecesOfSepFree(parts: seq<Text>)
    requires SepFree(parts)
    ensures AllPieces(parts) == parts
  {
    if parts != [] {
      AllPiecesOfSepFree(parts[1..]);
      PiecesOfSepFree(parts[0]);
      assert parts == [parts[0]] + parts[1..];
    }
  }

  /** Two part lists are confused exactly when their sorted parts fall into the same pieces. */
  lemma PreImageCollidesIff(ps: seq<Text>, qs: seq<Text>)
    ensures PreImage(ps) == PreImage(qs) <==>
            AllPieces(StableSort(LexLe, ps)) == AllPieces(StableSort(LexLe, qs))
  {
    var a, b := StableSort(LexLe, ps), StableSort(LexLe, qs);
    EncodeAllPieces(a);
    EncodeAllPieces(b);
    if Encode(AllPieces(a)) == Encode(AllPieces(b)) {
      EncodeInjective(AllPieces(a), AllPieces(b));
    }
  }

  /** Parts free of the separator are determined as a multiset, and nothing else matters. */
  lemma PreImageDeterminesParts(ps: seq<Text>, qs: seq<Text>)
    requires SepFree(ps) && SepFree(qs)
    ensures PreImage(ps) == PreImage(qs) <==> multiset(ps) == multiset(qs)
  {
    var a, b := StableSort(LexLe, ps), StableSort(LexLe, qs);
    forall k | 0 <= k < |a| ensures SEP !in a[k] { assert a[k] in multiset(a) && a[k] in ps; }
    forall k | 0 <= k < |b| ensures SEP !in b[k] { assert b[k] in multiset(b) && b[k] in qs; }
    if PreImage(ps) == PreImage(qs) {
      EncodeInjective(a, b);
    }
    if multiset(ps) == multiset(qs) {
      PreImagePermuted(ps, qs);
    }
  }

  // ---- the parts of each stage

  /** A path with its size in bytes. */
  type Sized = (Text, nat)

  const EV: Text := [101, 118, 58]  // "ev:"
  const DUMP: Text := [100, 117, 109, 112, 58]  // "dump:"
  const RULES: Text := [114, 117, 108, 101, 115, 58]  // "rules:"
  const FEEDS: Text := [102, 101, 101, 100, 115, 58]  // "feeds:"

  function DigitByte(d: nat): Byte { if d < 10 then 48 + d else 0 }

  function Decimal(n: nat): Text { Map(DigitByte, Numeral(10, n)) }

  lemma DecimalIsPlain(n: nat)
    ensures COLON !in Decimal(n) && SEP !in Decimal(n)
  {
    assert forall k :: 0 <= k < |Decimal(n)| ==> 48 <= Decimal(n)[k] < 58;
  }

  lemma DecimalInjective(m: nat, n: nat)
    requires Decimal(m) == Decimal(n)
    ensures m == n
  {
    var a, b := Numeral(10, m), Numeral(10, n);
    forall k | 0 <= k < |a| ensures a[k] == b[k] {
      assert Decimal(m)[k] == 48 + a[k] && Decimal(n)[k] == 48 + b[k];
    }
    assert a == b;
    NumeralInjective(10, m, n);
  }

  function SizedPart(prefix: Text): Sized -> Text {
    (s: Sized) => prefix + s.0 + [COLON] + Decimal(s.1)
  }

  lemma LastPiece(x: Text, p: Text, y: Text, q: Text)
    requires COLON !in p && COLON !in q && x + [COLON] + p == y + [COLON] + q
    ensures p == q && x == y
  {
    var whole := x + [COLON] + p;
    assert whole[|x|] == COLON && whole[|y|] == COLON;
    assert forall k :: |x| < k < |whole| ==> whole[k] == p[k - |x| - 1] != COLON;
    assert forall k :: |y| < k < |whole| ==> whole[k] == q[k - |y| - 1] != COLON;
    assert |x| == |y|;
    assert x == whole[..|x|] == y;
    assert p == whole[|x| + 1..] == q;
  }

  /** The last colon separates path from size, whatever the path contains. */
  lemma SizedPartInjective(prefix: Text)
    ensures Injective(SizedPart(prefix))
  {
    forall x: Sized, y: Sized | SizedPart(prefix)(x) == SizedPart(prefix)(y) ensures x == y {
      DecimalIsPlain(x.1);
      DecimalIsPlain(y.1);
      LastPiece(prefix + x.0, Decimal(x.1), prefix + y.0, Decimal(y.1));
      DecimalInjective(x.1, y.1);
      assert x.0 == (prefix + x.0)[|prefix|..] == (prefix + y.0)[|prefix|..] == y.0;
    }
  }

  function IngestParts(evidence: seq<Sized>): seq<Text> { Map(SizedPart(EV), evidence) }

  function MemoryParts(dumps: seq<Sized>): seq<Text> { Map(SizedPart(DUMP), dumps) }

  ghost predicate PlainPaths(xs: seq<Sized>) { forall k :: 0 <= k < |xs| ==> SEP !in xs[k].0 }

  /** For paths without the separator, the encoding changes exactly when the evidence set does. */
  lemma IngestFingerprintIff(xs: seq<Sized>, ys: seq<Sized>)
    requires PlainPaths(xs) && PlainPaths(ys)
    ensures PreImage(IngestParts(xs)) == PreImage(IngestParts(ys)) <==> multiset(xs) == multiset(ys)
    ensures PreImage(MemoryParts(xs)) == PreImage(MemoryParts(ys)) <==> multiset(xs) == multiset(ys)
  {
    SizedFingerprintIff(EV, xs, ys);
    SizedFingerprintIff(DUMP, xs, ys);
  }

  lemma SizedFingerprintIff(prefix: Text, xs: seq<Sized>, ys: seq<Sized>)
    requires SEP !in prefix && PlainPaths(xs) && PlainPaths(ys)
    ensures PreImage(Map(SizedPart(prefix), xs)) == PreImage(Map(SizedPart(prefix), ys)) <==>
            multiset(xs) == multiset(ys)
  {
    SizedPartsAreSepFree(prefix, xs);
    SizedPartsAreSepFree(prefix, ys);
    SizedPartInjective(prefix);
    MapKeepsMultisets(SizedPart(prefix), xs, ys);
    PreImageDeterminesParts(Map(SizedPart(prefix), xs), Map(SizedPart(prefix), ys));
  }

  lemma SizedPartsAreSepFree(prefix: Text, xs: seq<Sized>)
    requires SEP !in prefix && PlainPaths(xs)
    ensures SepFree(Map(SizedPart(prefix), xs))
  {
    forall k | 0 <= k < |xs| ensures SEP !in SizedPart(prefix)(xs[k]) {
      DecimalIsPlain(xs[k].1);
    }
  }

  lemma EncodeOne(t: Text)
    ensures PreImage([t]) == Encode([t]) == t + [SEP]
  {
    var one: seq<Text> := [t];
    assert one[1..] == [];
    assert StableSort(LexLe, one) == one;
  }

  lemma EncodeTwo(p: Text, q: Text)
    requires LexLe(p, q)
    ensures PreImage([p, q]) == p + [SEP] + (q + [SEP])
  {
    var two: seq<Text> := [p, q];
    EncodeOne(q);
    assert two[1..] == [q];
    assert StableSort(LexLe, [q]) == [q];
    assert StableSort(LexLe, two) == two;
  }

  /**
    Any two pieces of evidence, taken in the order of their parts, are confused with a single
    one whose path spells both with a separator between them.
   */
  lemma SeparatorInPathCollides(x: Sized, y: Sized)
    requires LexLe(SizedPart(EV)(x), SizedPart(EV)(y))
    ensures var joined: Sized := (x.0 + [COLON] + Decimal(x.1) + [SEP] + EV + y.0, y.1);
            && multiset([x, y]) != multiset([joined])
            && PreImage(IngestParts([x, y])) == PreImage(IngestParts([joined]))
  {
    var joined: Sized := (x.0 + [COLON] + Decimal(x.1) + [SEP] + EV + y.0, y.1);
    var f := SizedPart(EV);
    var both, one := [x, y], [joined];
    PartsOfTwo(x, y);
    PartsOfOne(joined);
    hide LexLe, Decimal, StableSort, Encode, IngestParts, SizedPart;
    assert |multiset(both)| == 2 && |multiset(one)| == 1;
    JoinedPart(x, y);
    EncodeTwo(f(x), f(y));
    EncodeOne(f(joined));
    assert f(x) + [SEP] + f(y) + [SEP] == f(x) + [SEP] + (f(y) + [SEP]);
  }

  lemma PartsOfTwo(x: Sized, y: Sized)
    ensures IngestParts([x, y]) == [SizedPart(EV)(x), SizedPart(EV)(y)]
  {}

  lemma PartsOfOne(x: Sized)
    ensures IngestParts([x]) == [SizedPart(EV)(x)]
  {}

  lemma JoinedPart(x: Sized, y: Sized)
    ensures SizedPart(EV)((x.0 + [COLON] + Decimal(x.1) + [SEP] + EV + y.0, y.1))
            == SizedPart(EV)(x) + [SEP] + SizedPart(EV)(y)
  {
    hide Decimal;
    var m, n := Decimal(x.1), Decimal(y.1);
    var left := EV + (x.0 + [COLON] + m + [SEP] + EV + y.0) + [COLON] + n;
    assert left == (EV + x.0 + [COLON] + m) + [SEP] + (EV + y.0 + [COLON] + n);
  }

  // ---- no two stages share an encoding

  datatype StageInputs =
    | Ingest(evidence: seq<Sized>)
    | Memory(dumps: seq<Sized>)
    | Correlate(ruleset: Text)
    | Scan(rules: Text, feeds: Text)
  {
    function Parts(): seq<Text> {
      match this
      case Ingest(xs) => IngestParts(xs)
      case Memory(xs) => MemoryParts(xs)
      case Correlate(v) => [RULES + v]
      case Scan(v, f) => [RULES + v, FEEDS + f]
    }

    /** The first byte every part sorted first starts with. */
    function Mark(): Byte {
      match this
      case Ingest(_) => 101
      case Memory(_) => 100
      case Correlate(_) => 114
      case Scan(_, _) => 102
    }
  }

  lemma MarkLeads(inputs: StageInputs)
    requires inputs.Parts() != []
    ensures PreImage(inputs.Parts()) != [] && PreImage(inputs.Parts())[0] == inputs.Mark()
  {
    hide LexLe, StableSort, Decimal;
    var parts := inputs.Parts();
    var sorted := StableSort(LexLe, parts);
    SameElements(sorted, parts);
    assert sorted[0] in parts;
    if inputs.Scan? {
      FeedsSortFirst(inputs.rules, inputs.feeds);
    }
  }

  lemma FeedsSortFirst(rules: Text, feeds: Text)
    ensures StableSort(LexLe, [RULES + rules, FEEDS + feeds])[0] == FEEDS + feeds
  {
    var r, f := RULES + rules, FEEDS + feeds;
    var parts := [r, f];
    assert f[0] == 102 && r[0] == 114;
    assert parts[1..] == [f];
    EncodeOne(f);
    assert StableSort(LexLe, [f]) == [f];
  }

  /** Different stages never hash the same bytes, except when both have no inputs at all. */
  lemma StagesNeverCollide(x: StageInputs, y: StageInputs)
    requires PreImage(x.Parts()) == PreImage(y.Parts())
    ensures (x.Parts() == [] && y.Parts() == []) || x.Mark() == y.Mark()
  {
    if x.Parts() != [] { MarkLeads(x); }
    if y.Parts() != [] { MarkLeads(y); }
    if x.Parts() == [] || y.Parts() == [] {
      assert PreImage([]) == [];
    }
  }

  // ---- the bytes spelled out

  /** The text in ASCII. */
  function Ascii(s: string): Text { seq(|s|, k requires 0 <= k < |s| => s[k] as int % 256) }

  /** The text is the number in decimal digits. */
  ghost predicate IsDecimal(t: Text, n: nat) {
    exists ds: seq<nat> :: Value(10, ds) == n && |ds| == |t| > 0
                           && forall k :: 0 <= k < |ds| ==> ds[k] < 10 && t[k] == '0' as int + ds[k]
  }

  lemma DecimalIs(n: nat)
    ensures IsDecimal(Decimal(n), n)
  {
    var ds := Numeral(10, n);
    NumeralValue(10, n);
    hide Numeral, Value;
    assert forall k :: 0 <= k < |ds| ==> Decimal(n)[k] == DigitByte(ds[k]);
  }

  lemma PrefixesAreAscii()
    ensures EV == Ascii("ev:") && DUMP == Ascii("dump:") && RULES == Ascii("rules:") && FEEDS == Ascii("feeds:")
    ensures [COLON] == Ascii(":") && SEP == 0x1f
  {}

  /** What is hashed for one input of ingest and memory: the part by its name and the unit separator. */
  lemma EvidenceSpelled(path: Text, size: nat)
    ensures exists digits ::
              && IsDecimal(digits, size)
              && PreImage(IngestParts([(path, size)])) == Ascii("ev:") + path + Ascii(":") + digits + [0x1f]
              && PreImage(MemoryParts([(path, size)])) == Ascii("dump:") + path + Ascii(":") + digits + [0x1f]
  {
    DecimalIs(size);
    PrefixesAreAscii();
    SizedSpelled(EV, path, size);
    SizedSpelled(DUMP, path, size);
    hide Ascii, PreImage, IsDecimal, SizedPart, Decimal;
  }

  lemma SizedSpelled(prefix: Text, path: Text, size: nat)
    ensures PreImage(Map(SizedPart(prefix), [(path, size)])) == prefix + path + [COLON] + Decimal(size) + [SEP]
  {
    hide Decimal, LexLe;
    var one: seq<Sized> := [(path, size)];
    assert one[1..] == [];
    assert Map(SizedPart(prefix), one) == [SizedPart(prefix)((path, size))];
    EncodeOne(SizedPart(prefix)((path, size)));
  }

  /** The same for correlation and scan, whose two parts are sorted. */
  lemma RulesSpelled(rules: Text, feeds: Text)
    ensures PreImage(StageInputs.Correlate(rules).Parts()) == Ascii("rules:") + rules + [0x1f]
    ensures PreImage(StageInputs.Scan(rules, feeds).Parts())
            == Ascii("feeds:") + feeds + [0x1f] + Ascii("rules:") + rules + [0x1f]
  {
    PrefixesAreAscii();
    hide Ascii, StableSort, LexLe, Encode, PreImage;
    EncodeOne(RULES + rules);
    ScanSpelled(rules, feeds);
  }

  lemma ScanSpelled(rules: Text, feeds: Text)
    ensures PreImage([RULES + rules, FEEDS + feeds]) == FEEDS + feeds + [SEP] + RULES + rules + [SEP]
  {
    var r: Text, f: Text := RULES + rules, FEEDS + feeds;
    assert f[0] == 102 && r[0] == 114;
    var given: seq<Text>, sorted: seq<Text> := [r, f], [f, r];
    assert multiset(given) == multiset(sorted);
    PreImagePermuted(given, sorted);
    EncodeTwo(f, r);
    hide StableSort, Encode, LexLe;
    assert f + [SEP] + (r + [SEP]) == FEEDS + feeds + [SEP] + RULES + rules + [SEP];
  }
}
