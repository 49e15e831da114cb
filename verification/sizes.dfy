/** `format_size`: the human-readable byte counts shown in progress events
    (src-tauri/src/helpers.rs). */
module Sizes {
  import Decimal
  import opened Wrappers

  /** The largest value of Rust's `u64`. */
  const MaxU64: nat := 0xFFFF_FFFF_FFFF_FFFF

  /** Rust's `u64`. */
  type U64 = x: nat | x <= MaxU64

  const KB: nat := 1024
  const MB: nat := KB * 1024
  const GB: nat := MB * 1024

  datatype SizeUnit = Bytes | Kilo | Mega | Giga {
    /** The suffix printed after the number. */
    function Label(): string {
      match this
      case Bytes => "bytes"
      case Kilo => "KB"
      case Mega => "MB"
      case Giga => "GB"
    }

    function Divisor(): nat {
      match this
      case Bytes => 1
      case Kilo => KB
      case Mega => MB
      case Giga => GB
    }

    function Rank(): nat {
      match this
      case Bytes => 0
      case Kilo => 1
      case Mega => 2
      case Giga => 3
    }
  }

  /** What `format_size` produces. Below one kilobyte the text is exact; above,
      it is `bytes / unit` printed with two decimals, a floating-point rendering
      that is kept here as the exact quotient's parts. */
  datatype SizeText =
    | Exact(text: string)
    | Scaled(bytes: nat, unit: SizeUnit)
  {
    function Unit(): SizeUnit {
      if Exact? then Bytes else unit
    }
  }

  /** `format_size(bytes)`. */
  function FormatSize(bytes: U64): (r: SizeText)
    ensures r.Unit() == Giga <==> bytes >= GB
    ensures r.Unit() == Mega <==> MB <= bytes < GB
    ensures r.Unit() == Kilo <==> KB <= bytes < MB
    ensures r.Unit() == Bytes <==> bytes < KB
    ensures r.Exact? <==> bytes < KB
    ensures r.Exact? ==>
      && |r.text| > |" bytes"|
      && var digits := r.text[..|r.text| - |" bytes"|];
      && r.text[|digits|..] == " " + r.Unit().Label()
      && Decimal.Canonical(digits)
      && Decimal.ParseNat(digits) == Some(bytes)
    ensures r.Scaled? ==>
      && r.bytes == bytes
      && 1 <= bytes / r.unit.Divisor()
      && (r.unit != Giga ==> bytes / r.unit.Divisor() < 1024)
  {
    if bytes >= GB then Scaled(bytes, Giga)
    else if bytes >= MB then Scaled(bytes, Mega)
    else if bytes >= KB then Scaled(bytes, Kilo)
    else Exact(Decimal.Show(bytes) + " bytes")
  }

  /** A larger byte count never selects a smaller unit. */
  lemma FormatSizeMonotone(a: U64, b: U64)
    requires a <= b
    ensures FormatSize(a).Unit().Rank() <= FormatSize(b).Unit().Rank()
  {
  }
}
