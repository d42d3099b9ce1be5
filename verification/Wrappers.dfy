/** Shared value types. */
module Wrappers {
  datatype Option<+T> = None | Some(value: T)

  datatype Result<+T, +E> = Ok(value: T) | Err(error: E)
}

/** The machine integers of the original program. */
module MachineInts {
  const I64_MIN: int := -0x8000_0000_0000_0000
  const I64_MAX: int := 0x7fff_ffff_ffff_ffff
  const U64_MAX: int := 0xffff_ffff_ffff_ffff
  const NANOS: int := 1_000_000_000

  type i64 = x: int | -0x8000_0000_0000_0000 <= x <= 0x7fff_ffff_ffff_ffff
  type u64 = x: int | 0 <= x <= 0xffff_ffff_ffff_ffff

  function Abs(x: int): nat { if x < 0 then -x else x }

  /** Saturation of a mathematical result into `i64`. */
  function SatI64(x: int): i64 { if x < I64_MIN then I64_MIN else if x > I64_MAX then I64_MAX else x }

  /** Saturation of a mathematical result into `u64`. */
  function SatU64(x: nat): u64 { if x > U64_MAX then U64_MAX else x }
}

/** Substring search. */
module Strings {
  predicate OccursAt(text: string, part: string, i: nat) {
    i + |part| <= |text| && text[i..i + |part|] == part
  }

  predicate Contains(text: string, part: string) {
    exists i | 0 <= i <= |text| :: OccursAt(text, part, i)
  }

  /** The text is the part with something, or nothing, before and after it. */
  ghost predicate HasPart(text: string, part: string) { exists before, after :: text == before + part + after }

  lemma ContainsIff(text: string, part: string)
    ensures Contains(text, part) <==> HasPart(text, part)
  {
    if Contains(text, part) {
      var i :| 0 <= i <= |text| && OccursAt(text, part, i);
      assert text == text[..i] + part + text[i + |part|..];
    }
    if before, after :| text == before + part + after {
      assert OccursAt(text, part, |before|);
    }
  }
}
