/**
 * The fixed schema of the accident CSV files: the 64-entry `headers` table
 * of `DataDownloader` (download.py:116-188), each field's validator as a
 * tagged `FieldKind`, and the 14-entry `regions` table (download.py:190-205).
 */
module Schema {
  import opened Results
  import opened Validators

  /** The numpy dtype a column is cast to; kept for the record, not interpreted. */
  datatype StorageType = I1 | I2 | I8 | F8 | DateDay | Unicode

  /** `value if v.strip() == token else ...`: a stripped token that bypasses the generic validator. */
  datatype Override = Override(token: string, value: int)

  /** What a field's validator does with a raw token. */
  datatype FieldKind =
    | IntRanged(ranges: seq<Range>, override: Option<Override>)  // int_validator, sentinel -1
    | Float                                                      // float_validator
    | Date                                                       // date_validator
    | Text                                                       // no validator: the raw token

  datatype FieldSpec = FieldSpec(name: string, storage: StorageType, kind: FieldKind)

  /**
   * A validated cell. `Real(t)` stands for Python's `float(t)` of the
   * normalised text `t` and `Day(t)` for `np.datetime64(t)`; their numerics
   * are not modelled.
   */
  datatype Value = Int(i: int) | Real(text: string) | Day(text: string) | Str(text: string)

  /** One column set: column name to its values, as the dicts of download.py. */
  type Columns = map<string, seq<Value>>

  const HeaderCount: nat := 64

  /** The `headers` table, entry by entry in CSV column order. */
  function HeaderAt(i: nat): (h: FieldSpec)
    requires i < HeaderCount
    ensures NameIndex(h.name) == i
  {
    match i
    case 0 => FieldSpec("p1", I8, IntRanged([], None))
    case 1 => FieldSpec("p36", I1, IntRanged([Range(0, 8)], None))
    case 2 => FieldSpec("p37", I8, IntRanged([Range(0, 99), Range(101, 999), Range(1000, 999999)], Some(Override("", 0))))
    case 3 => FieldSpec("p2a", DateDay, Date)
    case 4 => FieldSpec("weekday(p2a)", I1, IntRanged([Range(0, 6)], None))
    case 5 => FieldSpec("p2b", I2, IntRanged([], None))
    case 6 => FieldSpec("p6", I1, IntRanged([Range(0, 9)], None))
    case 7 => FieldSpec("p7", I1, IntRanged([Range(0, 4)], None))
    case 8 => FieldSpec("p8", I1, IntRanged([Range(0, 9)], None))
    case 9 => FieldSpec("p9", I1, IntRanged([Range(1, 2)], None))
    case 10 => FieldSpec("p10", I1, IntRanged([Range(0, 7)], None))
    case 11 => FieldSpec("p11", I1, IntRanged([Range(0, 9)], None))
    case 12 => FieldSpec("p12", I2, IntRanged([Range(100, 100), Range(301, 311), Range(401, 414), Range(501, 516), Range(601, 615)], None))
    case 13 => FieldSpec("p13a", I8, IntRanged([], None))
    case 14 => FieldSpec("p13b", I8, IntRanged([], None))
    case 15 => FieldSpec("p13c", I8, IntRanged([], None))
    case 16 => FieldSpec("p14", I8, IntRanged([], None))
    case 17 => FieldSpec("p15", I1, IntRanged([Range(1, 6)], None))
    case 18 => FieldSpec("p16", I1, IntRanged([Range(0, 9)], None))
    case 19 => FieldSpec("p17", I1, IntRanged([Range(1, 12)], None))
    case 20 => FieldSpec("p18", I1, IntRanged([Range(0, 7)], None))
    case 21 => FieldSpec("p19", I1, IntRanged([Range(1, 7)], None))
    case 22 => FieldSpec("p20", I1, IntRanged([Range(0, 6)], None))
    case 23 => FieldSpec("p21", I1, IntRanged([Range(0, 6)], None))
    case 24 => FieldSpec("p22", I1, IntRanged([Range(0, 9)], None))
    case 25 => FieldSpec("p23", I1, IntRanged([Range(0, 3)], None))
    case 26 => FieldSpec("p24", I1, IntRanged([Range(0, 5)], Some(Override("", 0))))
    case 27 => FieldSpec("p27", I1, IntRanged([Range(0, 10)], None))
    case 28 => FieldSpec("p28", I1, IntRanged([Range(1, 7)], None))
    case 29 => FieldSpec("p34", I8, IntRanged([], None))
    case 30 => FieldSpec("p35", I1, IntRanged([Range(0, 0), Range(10, 19), Range(22, 29)], None))
    case 31 => FieldSpec("p39", I1, IntRanged([Range(1, 9)], None))
    case 32 => FieldSpec("p44", I1, IntRanged([Range(0, 18)], None))
    case 33 => FieldSpec("p45a", I1, IntRanged([Range(0, 99)], Some(Override("", -2))))
    case 34 => FieldSpec("p47", I8, IntRanged([], Some(Override("XX", -2))))
    case 35 => FieldSpec("p48a", I1, IntRanged([Range(0, 18)], Some(Override("", -2))))
    case 36 => FieldSpec("p49", I1, IntRanged([Range(0, 1)], Some(Override("", -2))))
    case 37 => FieldSpec("p50a", I1, IntRanged([Range(0, 4)], Some(Override("", -2))))
    case 38 => FieldSpec("p50b", I1, IntRanged([Range(0, 4)], Some(Override("", -2))))
    case 39 => FieldSpec("p51", I1, IntRanged([Range(1, 3)], Some(Override("", -2))))
    case 40 => FieldSpec("p52", I1, IntRanged([Range(1, 6), Range(10, 99)], Some(Override("", -2))))
    case 41 => FieldSpec("p53", I8, IntRanged([], None))
    case 42 => FieldSpec("p55a", I1, IntRanged([Range(0, 9)], None))
    case 43 => FieldSpec("p57", I1, IntRanged([Range(0, 9)], None))
    case 44 => FieldSpec("p58", I1, IntRanged([Range(0, 5)], None))
    case 45 => FieldSpec("a", F8, Float)
    case 46 => FieldSpec("b", F8, Float)
    case 47 => FieldSpec("d", F8, Float)
    case 48 => FieldSpec("e", F8, Float)
    case 49 => FieldSpec("f", F8, Float)
    case 50 => FieldSpec("g", F8, Float)
    case 51 => FieldSpec("h", Unicode, Text)
    case 52 => FieldSpec("i", Unicode, Text)
    case 53 => FieldSpec("j", Unicode, Text)
    case 54 => FieldSpec("k", Unicode, Text)
    case 55 => FieldSpec("l", Unicode, Text)
    case 56 => FieldSpec("n", I8, IntRanged([], Some(Override("", -2))))
    case 57 => FieldSpec("o", Unicode, Text)
    case 58 => FieldSpec("p", Unicode, Text)
    case 59 => FieldSpec("q", Unicode, Text)
    case 60 => FieldSpec("r", I8, IntRanged([], Some(Override("", -2))))
    case 61 => FieldSpec("s", I8, IntRanged([], Some(Override("", -2))))
    case 62 => FieldSpec("t", Unicode, Text)
    case _ => FieldSpec("p5a", I1, IntRanged([Range(0, 1)], None))
  }

  /** Position of a header name in the table, -1 for a name that is not a header. */
  function NameIndex(name: string): int {
    match name
    case "p1" => 0
    case "p36" => 1
    case "p37" => 2
    case "p2a" => 3
    case "weekday(p2a)" => 4
    case "p2b" => 5
    case "p6" => 6
    case "p7" => 7
    case "p8" => 8
    case "p9" => 9
    case "p10" => 10
    case "p11" => 11
    case "p12" => 12
    case "p13a" => 13
    case "p13b" => 14
    case "p13c" => 15
    case "p14" => 16
    case "p15" => 17
    case "p16" => 18
    case "p17" => 19
    case "p18" => 20
    case "p19" => 21
    case "p20" => 22
    case "p21" => 23
    case "p22" => 24
    case "p23" => 25
    case "p24" => 26
    case "p27" => 27
    case "p28" => 28
    case "p34" => 29
    case "p35" => 30
    case "p39" => 31
    case "p44" => 32
    case "p45a" => 33
    case "p47" => 34
    case "p48a" => 35
    case "p49" => 36
    case "p50a" => 37
    case "p50b" => 38
    case "p51" => 39
    case "p52" => 40
    case "p53" => 41
    case "p55a" => 42
    case "p57" => 43
    case "p58" => 44
    case "a" => 45
    case "b" => 46
    case "d" => 47
    case "e" => 48
    case "f" => 49
    case "g" => 50
    case "h" => 51
    case "i" => 52
    case "j" => 53
    case "k" => 54
    case "l" => 55
    case "n" => 56
    case "o" => 57
    case "p" => 58
    case "q" => 59
    case "r" => 60
    case "s" => 61
    case "t" => 62
    case "p5a" => 63
    case _ => -1
  }

  /** The first n header names, in table order. */
  function NamesUpTo(n: nat): (names: seq<string>)
    requires n <= HeaderCount
    ensures |names| == n && forall i | 0 <= i < n :: names[i] == HeaderAt(i).name
  {
    if n == 0 then [] else NamesUpTo(n - 1) + [HeaderAt(n - 1).name]
  }

  const HeaderNames: seq<string> := NamesUpTo(HeaderCount)

  /** The name of the column `parse_region_data` adds after the header columns. */
  const RegionColumn: string := "region"

  /** The keys of every column set: the header names and "region". */
  const OutputKeys: set<string> := (set i | 0 <= i < HeaderCount :: HeaderAt(i).name) + {RegionColumn}

  /** `NameIndex` finds every header at its own position, so no name is used twice. */
  lemma NameIndexInverse()
    ensures forall i | 0 <= i < HeaderCount :: NameIndex(HeaderAt(i).name) == i
    ensures NameIndex(RegionColumn) == -1
  {
    assert NameIndex(RegionColumn) == -1;
  }

  /** Every output key other than "region" is the name of the header at `NameIndex(key)`. */
  lemma OutputKeyIndex(key: string)
    requires key in OutputKeys && key != RegionColumn
    ensures 0 <= NameIndex(key) < HeaderCount && HeaderAt(NameIndex(key)).name == key
  {
    var i :| 0 <= i < HeaderCount && HeaderAt(i).name == key;
  }

  lemma HeaderNamesDistinct()
    ensures |HeaderNames| == HeaderCount
    ensures forall i, j | 0 <= i < j < HeaderCount :: HeaderNames[i] != HeaderNames[j]
    ensures RegionColumn !in HeaderNames
  {
    NameIndexInverse();
  }

  /** The result an `IntRanged` field can hold: a range member, its override value or the sentinel -1. */
  predicate Admissible(kind: FieldKind, x: int)
    requires kind.IntRanged?
  {
    || x == -1
    || (kind.override.Some? && x == kind.override.value.value)
    || kind.ranges == []
    || InUnion(x, kind.ranges)
  }

  /** The per-field validator (`header[2]` of download.py), dispatched on the field kind. */
  function Validate(kind: FieldKind, tok: string): (v: Value)
    ensures kind.IntRanged? ==> v.Int? && Admissible(kind, v.i)
    ensures (kind.IntRanged? && kind.override.Some? && Strip(tok) == kind.override.value.token)
              ==> v == Int(kind.override.value.value)
    ensures (kind.IntRanged? && (kind.override.None? || Strip(tok) != kind.override.value.token))
              ==> v == Int(IntValidator(tok, kind.ranges, -1))
    ensures kind.Float? ==> v.Real?
    ensures kind.Date? ==> v == Day(tok)
    ensures kind.Text? ==> v == Str(tok)
  {
    match kind
    case IntRanged(ranges, override) =>
      if override.Some? && Strip(tok) == override.value.token then Int(override.value.value)
      else Int(IntValidator(tok, ranges, -1))
    case Float => Real(NormalizeDecimalMark(tok))
    case Date => Day(tok)
    case Text => Str(tok)
  }

  /** Fields whose blank token is read as -2 ("intentionally blank"). */
  const BlankMeansMinusTwo: set<string> := {"p45a", "p48a", "p49", "p50a", "p50b", "p51", "p52", "n", "r", "s"}

  /** Fields whose blank token is read as 0. */
  const BlankMeansZero: set<string> := {"p37", "p24"}

  /**
   * What an integer field makes of a whitespace-only token: -2 for the
   * fields of `BlankMeansMinusTwo`, 0 for `p37` and `p24`, and the generic
   * sentinel -1 for every other integer field (`int("")` raises).
   */
  lemma BlankTokens(i: nat, tok: string)
    requires i < HeaderCount && HeaderAt(i).kind.IntRanged? && Blank(IsSpace, tok)
    ensures Validate(HeaderAt(i).kind, tok)
              == Int(if HeaderAt(i).name in BlankMeansMinusTwo then -2
                     else if HeaderAt(i).name in BlankMeansZero then 0
                     else -1)
  {
    assert Strip(tok) == "";
    ParseIntBlank(tok);
    UnparsedToken(HeaderAt(i).kind, tok);
    BlankOverrides(i);
  }

  /** A token `int()` rejects yields the field's override value if it matches, else -1. */
  lemma UnparsedToken(kind: FieldKind, tok: string)
    requires kind.IntRanged? && ParseInt(tok).None?
    ensures Validate(kind, tok)
              == Int(if kind.override.Some? && Strip(tok) == kind.override.value.token then kind.override.value.value else -1)
  {
  }

  /** Which integer fields override the blank token, and with what. */
  lemma BlankOverrides(i: nat)
    requires i < HeaderCount && HeaderAt(i).kind.IntRanged?
    ensures var o := HeaderAt(i).kind.override;
            (if o.Some? && o.value.token == "" then o.value.value else -1)
              == (if HeaderAt(i).name in BlankMeansMinusTwo then -2
                  else if HeaderAt(i).name in BlankMeansZero then 0
                  else -1)
  {
    if i < 32 {
      BlankOverridesLow(i);
    } else {
      BlankOverridesHigh(i);
    }
  }

  lemma BlankOverridesLow(i: nat)
    requires i < 32 && HeaderAt(i).kind.IntRanged?
    ensures var o := HeaderAt(i).kind.override;
            (if o.Some? && o.value.token == "" then o.value.value else -1)
              == (if HeaderAt(i).name in BlankMeansMinusTwo then -2
                  else if HeaderAt(i).name in BlankMeansZero then 0
                  else -1)
  {
  }

  lemma BlankOverridesHigh(i: nat)
    requires 32 <= i < HeaderCount && HeaderAt(i).kind.IntRanged?
    ensures var o := HeaderAt(i).kind.override;
            (if o.Some? && o.value.token == "" then o.value.value else -1)
              == (if HeaderAt(i).name in BlankMeansMinusTwo then -2
                  else if HeaderAt(i).name in BlankMeansZero then 0
                  else -1)
  {
  }

  /** `p47` alone reads "XX" (after stripping) as -2; every other integer field rejects it as -1. */
  lemma XXToken(i: nat, tok: string)
    requires i < HeaderCount && HeaderAt(i).kind.IntRanged? && Strip(tok) == "XX"
    ensures Validate(HeaderAt(i).kind, tok) == Int(if HeaderAt(i).name == "p47" then -2 else -1)
  {
    assert !IsDigit('X');
    if ParseInt(tok).Some? {
      ParseIntAgreesWithStrip(tok);
      assert false;
    }
    UnparsedToken(HeaderAt(i).kind, tok);
    XXOverrides(i);
  }

  /** Only `p47` overrides the token "XX". */
  lemma XXOverrides(i: nat)
    requires i < HeaderCount && HeaderAt(i).kind.IntRanged?
    ensures var o := HeaderAt(i).kind.override;
            (if o.Some? && o.value.token == "XX" then o.value.value else -1)
              == (if HeaderAt(i).name == "p47" then -2 else -1)
  {
  }

  /** The range-checked field `p5a` (0 or 1): "7" is rejected as -1, "1" is kept. */
  lemma P5aExamples()
    ensures NameIndex("p5a") == 63
    ensures Validate(HeaderAt(63).kind, "7") == Int(-1)
    ensures Validate(HeaderAt(63).kind, "1") == Int(1)
  {
    var kind := HeaderAt(63).kind;
    assert kind == IntRanged([Range(0, 1)], None);
    ParseDigit(7);
    ParseDigit(1);
    assert [DigitChar(7)] == "7" && [DigitChar(1)] == "1";
    assert !InUnion(7, kind.ranges);
    assert InRange(1, kind.ranges[0]);
  }

  lemma ParseDigit(d: nat)
    requires d < 10
    ensures ParseInt([DigitChar(d)]) == Some(d)
  {
    ParseShowInt(d, "", "");
    assert "" + ShowInt(d) + "" == [DigitChar(d)];
  }

  /** Float fields accept either decimal mark: tokens differing only in `,` versus `.` validate alike. */
  lemma FloatSpellingsAgree(s: string, t: string)
    requires SameUpToDecimalMark(s, t)
    ensures Validate(Float, s) == Validate(Float, t)
  {
    NormalizeDecimalMarkAgrees(s, t);
  }

  /** The inclusive bounds of a signed integer dtype; `None` for the non-integer dtypes and `i8`. */
  function NarrowBounds(storage: StorageType): Option<Range> {
    match storage
    case I1 => Some(Range(-128, 127))
    case I2 => Some(Range(-32768, 32767))
    case _ => None
  }

  /** Every range of `ranges` lies inside `bounds`. */
  predicate RangesWithin(ranges: seq<Range>, bounds: Range) {
    ranges == [] || (bounds.left <= ranges[0].left && ranges[0].right <= bounds.right && RangesWithin(ranges[1..], bounds))
  }

  lemma {:induction false} RangesWithinUnion(ranges: seq<Range>, bounds: Range, x: int)
    requires RangesWithin(ranges, bounds) && InUnion(x, ranges)
    ensures InRange(x, bounds)
  {
    var k :| 0 <= k < |ranges| && InRange(x, ranges[k]);
    if k > 0 {
      assert InRange(x, ranges[1..][k - 1]);
      RangesWithinUnion(ranges[1..], bounds, x);
    }
  }

  /** Every value `kind` can produce lies in `bounds`. */
  predicate KindWithin(kind: FieldKind, bounds: Range) {
    && kind.IntRanged?
    && kind.ranges != []
    && InRange(-1, bounds)
    && (kind.override.Some? ==> InRange(kind.override.value.value, bounds))
    && RangesWithin(kind.ranges, bounds)
  }

  lemma KindWithinAdmissible(kind: FieldKind, bounds: Range, x: int)
    requires KindWithin(kind, bounds) && Admissible(kind, x)
    ensures InRange(x, bounds)
  {
    if InUnion(x, kind.ranges) {
      RangesWithinUnion(kind.ranges, bounds, x);
    }
  }

  /**
   * The `np.array(..., dtype=...)` cast never narrows a value of a range-checked
   * field: each `i1` field and `p12`, the ranged `i2` field, can only produce
   * values its dtype holds. The one other `i2` field, `p2b`, is unchecked.
   */
  lemma NarrowFieldsFit(i: nat)
    requires i < HeaderCount && NarrowBounds(HeaderAt(i).storage).Some?
    ensures HeaderAt(i).name == "p2b"
            || forall x | Admissible(HeaderAt(i).kind, x) :: InRange(x, NarrowBounds(HeaderAt(i).storage).value)
  {
    var h := HeaderAt(i);
    if h.name != "p2b" {
      var bounds := NarrowBounds(h.storage).value;
      NarrowKindsWithin(i);
      forall x | Admissible(h.kind, x) ensures InRange(x, bounds) {
        KindWithinAdmissible(h.kind, bounds, x);
      }
    }
  }

  /** Each range-checked narrow field's validator stays inside its dtype; checked a quarter of the table at a time. */
  lemma NarrowKindsWithin(i: nat)
    requires i < HeaderCount && NarrowBounds(HeaderAt(i).storage).Some? && HeaderAt(i).name != "p2b"
    ensures KindWithin(HeaderAt(i).kind, NarrowBounds(HeaderAt(i).storage).value)
  {
    if i < 16 {
      NarrowKindsWithinQ0(i);
    } else if i < 32 {
      NarrowKindsWithinQ1(i);
    } else if i < 48 {
      NarrowKindsWithinQ2(i);
    } else {
      NarrowKindsWithinQ3(i);
    }
  }

  lemma NarrowKindsWithinQ0(i: nat)
    requires 0 <= i < 16 && NarrowBounds(HeaderAt(i).storage).Some? && HeaderAt(i).name != "p2b"
    ensures KindWithin(HeaderAt(i).kind, NarrowBounds(HeaderAt(i).storage).value)
  {
  }

  lemma NarrowKindsWithinQ1(i: nat)
    requires 16 <= i < 32 && NarrowBounds(HeaderAt(i).storage).Some? && HeaderAt(i).name != "p2b"
    ensures KindWithin(HeaderAt(i).kind, NarrowBounds(HeaderAt(i).storage).value)
  {
  }

  lemma NarrowKindsWithinQ2(i: nat)
    requires 32 <= i < 48 && NarrowBounds(HeaderAt(i).storage).Some? && HeaderAt(i).name != "p2b"
    ensures KindWithin(HeaderAt(i).kind, NarrowBounds(HeaderAt(i).storage).value)
  {
  }

  lemma NarrowKindsWithinQ3(i: nat)
    requires 48 <= i < 64 && NarrowBounds(HeaderAt(i).storage).Some? && HeaderAt(i).name != "p2b"
    ensures KindWithin(HeaderAt(i).kind, NarrowBounds(HeaderAt(i).storage).value)
  {
  }

  /** The short region names, in the insertion order of the `regions` dict. */
  const RegionNames: seq<string> := ["PHA", "STC", "JHC", "PLK", "ULK", "HKK", "JHM", "MSK", "OLK", "ZLK", "VYS", "PAK", "LBK", "KVK"]

  /** `regions[name]`: the two-digit code naming the region's CSV member, `None` for a `KeyError`. */
  function RegionCode(name: string): (code: Option<string>)
    ensures code.Some? ==> |code.value| == 2
  {
    match name
    case "PHA" => Some("00")
    case "STC" => Some("01")
    case "JHC" => Some("02")
    case "PLK" => Some("03")
    case "ULK" => Some("04")
    case "HKK" => Some("05")
    case "JHM" => Some("06")
    case "MSK" => Some("07")
    case "OLK" => Some("14")
    case "ZLK" => Some("15")
    case "VYS" => Some("16")
    case "PAK" => Some("17")
    case "LBK" => Some("18")
    case "KVK" => Some("19")
    case _ => None
  }

  /** The region a two-digit code belongs to ("" for no region). */
  function CodeRegion(code: string): string {
    match code
    case "00" => "PHA"
    case "01" => "STC"
    case "02" => "JHC"
    case "03" => "PLK"
    case "04" => "ULK"
    case "05" => "HKK"
    case "06" => "JHM"
    case "07" => "MSK"
    case "14" => "OLK"
    case "15" => "ZLK"
    case "16" => "VYS"
    case "17" => "PAK"
    case "18" => "LBK"
    case "19" => "KVK"
    case _ => ""
  }

  /** Reading the region back from its code undoes the lookup. */
  lemma RegionCodeInverse(name: string)
    requires RegionCode(name).Some?
    ensures CodeRegion(RegionCode(name).value) == name
  {
  }

  /** The dict's keys are exactly `RegionNames`, each once. */
  lemma RegionNamesAreKeys()
    ensures |RegionNames| == 14
    ensures forall k | 0 <= k < |RegionNames| :: RegionCode(RegionNames[k]).Some?
    ensures forall name | RegionCode(name).Some? :: name in RegionNames
  {
  }

  lemma RegionNamesDistinct()
    ensures forall j, k | 0 <= j < k < |RegionNames| :: RegionNames[j] != RegionNames[k]
  {
    assert forall k | 0 <= k < |RegionNames| :: CodeRegion(RegionCode(RegionNames[k]).value) == RegionNames[k];
  }

  /** No two regions share a code, so no two regions read the same CSV member. */
  lemma RegionCodesDistinct()
    ensures forall a, b | RegionCode(a).Some? && RegionCode(a) == RegionCode(b) :: a == b
  {
    assert forall name | RegionCode(name).Some? :: CodeRegion(RegionCode(name).value) == name;
  }
}
