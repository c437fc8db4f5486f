/** The records the label matcher reads and rewrites: specimen records, the
    lookup rows they refer to, species and images. */
module Specimens {

  datatype Option<T> = None | Some(value: T)

  type RecordId = nat
  type ImageId = nat
  type SpeciesId = nat

  /** A row of one of the lookup tables a record refers to (state, county,
      collector, collection). `text` is the attribute the grid shows for it:
      a state's code, the name of the others. */
  datatype Ref = Ref(id: nat, text: string)

  datatype Species = Species(id: SpeciesId, genus: string, epithet: string)

  /** A specimen record. A label is a record of the same shape. Fields that the
      matcher never compares and the grid only shows are kept as the text that
      Python's `str` gives for them. */
  datatype Record = Record(
    id: RecordId,
    species: Species,
    recordType: string,
    latitude: string,
    longitude: string,
    state: Option<Ref>,
    county: Option<Ref>,
    locality: string,
    elevation: string,
    date: string,
    year: Option<int>,
    month: Option<int>,
    day: Option<int>,
    collector: Option<Ref>,
    collection: Option<Ref>)

  /** An image: the species it belongs to and the record it currently uses as
      its label (both nullable foreign keys). */
  datatype Image = Image(species: Option<SpeciesId>, record: Option<RecordId>)

  predicate IsDigit(c: char) {
    '0' <= c <= '9'
  }

  /** Python's `str` of a non-negative integer. */
  function DecimalString(n: nat): (s: string)
    ensures s != []
    ensures forall i :: 0 <= i < |s| ==> IsDigit(s[i])
    ensures s[0] == '0' ==> n == 0
  {
    if n < 10 then [DigitChar(n)] else DecimalString(n / 10) + [DigitChar(n % 10)]
  }

  function DigitChar(d: nat): (c: char)
    requires d < 10
    ensures IsDigit(c) && c as int - '0' as int == d
  {
    (d + '0' as int) as char
  }

  /** The number a string of decimal digits denotes. */
  function DecimalValue(s: string): nat
    requires forall i :: 0 <= i < |s| ==> IsDigit(s[i])
  {
    if s == [] then 0
    else
      assert IsDigit(s[|s| - 1]);
      10 * DecimalValue(s[..|s| - 1]) + (s[|s| - 1] as int - '0' as int)
  }

  /** Reading back the text of an id gives the id: distinct ids show as distinct text. */
  lemma {:induction false} DecimalRoundTrip(n: nat)
    ensures DecimalValue(DecimalString(n)) == n
  {
    if n >= 10 {
      var s := DecimalString(n);
      assert s[..|s| - 1] == DecimalString(n / 10);
      DecimalRoundTrip(n / 10);
    }
  }
}
