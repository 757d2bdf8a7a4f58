/**
 JSON values, and the sponsor filter that every model-facing record passes (security.ts).
 Absent fields stand for undefined; the order of fields is not represented.
 */
module Json {
  datatype Json =
    | Null
    | Bool(flag: bool)
    | Num(number: real)
    | Str(text: string)
    | Arr(items: seq<Json>)
    | Obj(fields: Record)

  type Record = map<string, Json>

  const SPONSOR_KEYS := {"ad", "ads", "advertiser", "sponsor", "sponsorship", "settlement", "subsidy", "economics"}

  function LowerChar(c: char): char {
    if 'A' <= c <= 'Z' then c - 'A' + 'a' else c
  }

  function Lower(s: string): string {
    seq(|s|, i requires 0 <= i < |s| => LowerChar(s[i]))
  }

  predicate SponsorKey(key: string) {
    Lower(key) in SPONSOR_KEYS
  }

  predicate ContainsSponsorKey(value: Json) {
    match value
    case Arr(items) => exists i | 0 <= i < |items| :: ContainsSponsorKey(items[i])
    case Obj(fields) => exists key | key in fields :: SponsorKey(key) || ContainsSponsorKey(fields[key])
    case _ => false
  }

  function RemoveSponsorData(value: Json): Json {
    match value
    case Arr(items) => Arr(seq(|items|, i requires 0 <= i < |items| => RemoveSponsorData(items[i])))
    case Obj(fields) => Obj(map key | key in fields && !SponsorKey(key) :: RemoveSponsorData(fields[key]))
    case _ => value
  }

  // The lower-case letter of an ASCII letter, any other character as it is.
  predicate SameLetter(c: char, lower: char) {
    c == lower || ('A' <= c <= 'Z' && c as int + 32 == lower as int)
  }

  predicate Spells(key: string, name: string) {
    |name| == |key| && forall i | 0 <= i < |key| :: SameLetter(key[i], name[i])
  }

  lemma LowerSpells(key: string, name: string)
    requires forall i | 0 <= i < |name| :: !('A' <= name[i] <= 'Z')
    ensures Lower(key) == name <==> Spells(key, name)
  {
    assert Lower(key) == name <==> |name| == |key| && forall i | 0 <= i < |key| :: LowerChar(key[i]) == name[i];
  }

  lemma NoCapitals(name: string)
    requires name in ["ad", "ads", "advertiser", "sponsor", "sponsorship", "settlement", "subsidy", "economics"]
    ensures forall i | 0 <= i < |name| :: !('A' <= name[i] <= 'Z')
  {
  }

  /** The keys filtered out are the eight names in any combination of cases, and no others. */
  lemma SponsorKeysExactly(key: string)
    ensures SponsorKey(key) <==>
            exists name :: name in ["ad", "ads", "advertiser", "sponsor", "sponsorship", "settlement", "subsidy", "economics"] && Spells(key, name)
  {
    var names := ["ad", "ads", "advertiser", "sponsor", "sponsorship", "settlement", "subsidy", "economics"];
    hide Lower, Spells;
    forall name | name in names ensures Lower(key) == name <==> Spells(key, name) {
      NoCapitals(name);
      LowerSpells(key, name);
    }
    assert SponsorKey(key) <==> Lower(key) in names;
  }

  function SafeRecord(value: Json): Record {
    if value.Obj? then value.fields else map[]
  }

  predicate SponsorFree(record: Record) {
    !ContainsSponsorKey(Obj(record))
  }

  /** The filter changes nothing in a value without sponsor keys. */
  lemma {:induction false} RemovingNothing(value: Json)
    requires !ContainsSponsorKey(value)
    ensures RemoveSponsorData(value) == value
  {
    match value
    case Arr(items) =>
      forall i | 0 <= i < |items| ensures RemoveSponsorData(items[i]) == items[i] { RemovingNothing(items[i]); }
    case Obj(fields) =>
      forall key | key in fields ensures RemoveSponsorData(fields[key]) == fields[key] { RemovingNothing(fields[key]); }
    case _ =>
  }

  /** The filter leaves no sponsor key behind. */
  lemma {:induction false} RemovingAll(value: Json)
    ensures !ContainsSponsorKey(RemoveSponsorData(value))
  {
    match value
    case Arr(items) =>
      forall i | 0 <= i < |items| ensures !ContainsSponsorKey(RemoveSponsorData(items[i])) { RemovingAll(items[i]); }
    case Obj(fields) =>
      forall key | key in fields ensures !ContainsSponsorKey(RemoveSponsorData(fields[key])) { RemovingAll(fields[key]); }
    case _ =>
  }

  function Truthy(value: Json): bool {
    match value
    case Null => false
    case Bool(flag) => flag
    case Num(number) => number != 0.0
    case Str(text) => text != ""
    case _ => true
  }

  // record.key ?? fallback
  function OrElse(record: Record, key: string, fallback: Json): Json {
    if key in record && record[key] != Null then record[key] else fallback
  }

  predicate HasText(record: Record, key: string) {
    key in record && record[key].Str?
  }

  // The fields of record named in keys, where present.
  function Pick(record: Record, keys: set<string>): Record {
    map key | key in record && key in keys :: record[key]
  }
}
