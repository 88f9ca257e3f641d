/**
 * IDDate (lib/id_date.rb): an immutable pair of an id (a record id or an
 * htid) and the YYYYMM month it was seen, ordered by `<=>`.
 */
module IdDates {
  import opened Wrappers
  import opened HistoryEntries

  /** `IDDate.new(id, dt)`: the constructor stores both fields unchanged. */
  datatype IDDate<I> = IDDate(id: I, dt: Period)

  /**
   * The fields `{id, dt}` of an IDDate: the hash `to_h` returns and the object
   * `to_json` writes (less its class tag), which `json_create` reads back when
   * the JSON is parsed with `create_additions`.
   */
  datatype IdDateHash<I> = IdDateHash(id: I, dt: Period)

  /** `Integer#<=>`. */
  function CompareInts(a: int, b: int): (c: int)
    ensures c == 0 <==> a == b
    ensures c < 0 <==> a < b
    ensures c > 0 <==> a > b
  {
    if a < b then -1 else if a == b then 0 else 1
  }

  /**
   * `IDDate#<=>`: `@id <=> other.id and @dt <=> other.dt`.  Ruby's `and`
   * yields its left side when that is nil and its right side otherwise (0
   * is truthy), so the result is nil when the ids are not comparable and
   * the comparison of the dates whenever they are.  `idCompare` is the ids'
   * own `<=>`, `None` standing for nil.
   */
  function Compare<I>(a: IDDate<I>, b: IDDate<I>, idCompare: (I, I) -> Option<int>): Option<int> {
    match idCompare(a.id, b.id)
    case None => None
    case Some(_) => Some(CompareInts(a.dt, b.dt))
  }

  /** An id comparison that never yields nil, as between ids of one kind. */
  ghost predicate Comparable<I(!new)>(idCompare: (I, I) -> Option<int>) {
    forall x: I, y: I :: idCompare(x, y).Some?
  }

  /** `to_h`, and the fields `to_json` writes. */
  function ToH<I>(d: IDDate<I>): IdDateHash<I> {
    IdDateHash(d.id, d.dt)
  }

  /** `IDDate.json_create`. */
  function JsonCreate<I>(h: IdDateHash<I>): IDDate<I> {
    IDDate(h.id, h.dt)
  }

  /**
   * `JSON.parse(d.to_json, create_additions: true)` gives `d` back, and the
   * fields of a rebuilt IDDate are those it was rebuilt from.
   */
  lemma JsonRoundTrip<I>(d: IDDate<I>, h: IdDateHash<I>)
    ensures JsonCreate(ToH(d)) == d
    ensures ToH(JsonCreate(h)) == h
  {
  }

  /** Comparing the ids decides only whether there is an answer: the answer is the dates' order. */
  lemma CompareIsByDate<I>(a: IDDate<I>, b: IDDate<I>, idCompare: (I, I) -> Option<int>)
    ensures Compare(a, b, idCompare).Some? <==> idCompare(a.id, b.id).Some?
    ensures Compare(a, b, idCompare).Some? ==>
              && (Compare(a, b, idCompare).value == 0 <==> a.dt == b.dt)
              && (Compare(a, b, idCompare).value < 0 <==> a.dt < b.dt)
  {
  }

  /** Two IDDates with the same month compare as 0 whatever their ids, when those compare at all. */
  lemma SameDateCompareZero<I>(a: IDDate<I>, b: IDDate<I>, idCompare: (I, I) -> Option<int>)
    requires a.dt == b.dt && idCompare(a.id, b.id).Some?
    ensures Compare(a, b, idCompare) == Some(0)
  {
  }

  /** With comparable ids `<=>` is a total preorder by date: reflexive, antisymmetric on dates and transitive. */
  lemma ComparePreorder<I(!new)>(a: IDDate<I>, b: IDDate<I>, c: IDDate<I>, idCompare: (I, I) -> Option<int>)
    requires Comparable(idCompare)
    ensures Compare(a, a, idCompare) == Some(0)
    ensures Compare(a, b, idCompare).value <= 0 || Compare(b, a, idCompare).value <= 0
    ensures Compare(a, b, idCompare).value <= 0 && Compare(b, a, idCompare).value <= 0 ==> a.dt == b.dt
    ensures Compare(a, b, idCompare).value <= 0 && Compare(b, c, idCompare).value <= 0 ==> Compare(a, c, idCompare).value <= 0
    ensures Compare(a, b, idCompare).value == -Compare(b, a, idCompare).value
  {
    assert idCompare(a.id, a.id).Some? && idCompare(a.id, b.id).Some?;
    assert idCompare(b.id, a.id).Some? && idCompare(b.id, c.id).Some? && idCompare(a.id, c.id).Some?;
  }
}
