/**
 * The filter set-up of `RodosCanRelay::new` in uart-can-relay/src/rodos_can_relay.rs:
 * each `(topic, device)` pair becomes an extended-id filter for the RODOS ids of that
 * topic, the first eight pairs are kept and the list is padded with disabled filters
 * to the eight slots of the peripheral. The peripheral calls themselves are not
 * modelled; the filters are the method's result.
 *
 * The source builds ids with `|` over disjoint bit ranges (the id prefix in bits
 * 24..29, the topic in bits 8..24, the device in bits 0..8); they are sums here.
 */
module RodosCanRelay {
  import opened Common
  import RodosCanReceiver

  const RodosCanId := 0x1C
  const FilterSlots := 8

  /** The largest 29-bit extended id. */
  const MaxExtendedId := 0x1FFF_FFFF

  /** `ExtendedFilter`, with the `Range` fields named as in the source. */
  datatype ExtendedFilter = DedicatedSingle(id: U32) | Range(to: U32, from: U32) | Disabled

  /** `ExtendedId::new`: `None` above 29 bits. */
  function NewExtendedId(raw: nat): (r: Option<U32>)
    ensures r.Some? <==> raw <= MaxExtendedId
    ensures r.Some? ==> r.value == raw
  {
    if raw <= MaxExtendedId then Some(raw) else None
  }

  /** `can_id_range_start`: the first RODOS id of `topic`. */
  function BaseId(topic: U16): nat
  {
    RodosCanId * 0x100_0000 + topic * 0x100
  }

  /**
   * The filter built for one pair, or `None` where an `ExtendedId::new(..).unwrap()`
   * would panic, which it never does: every id is at most 0x1CFF_FFFF.
   */
  function FilterFor(pair: (U16, Option<Byte>)): (r: Option<ExtendedFilter>)
    ensures r.Some?
    ensures pair.1.Some? ==> r.value == DedicatedSingle(BaseId(pair.0) + pair.1.value)
    ensures pair.1.None? ==> r.value == Range(BaseId(pair.0), BaseId(pair.0) + 0xFF)
    ensures r.value.DedicatedSingle? ==> r.value.id <= 0x1CFF_FFFF < MaxExtendedId
    ensures r.value.Range? ==> r.value.to < r.value.from <= 0x1CFF_FFFF
  {
    var start := BaseId(pair.0);
    match pair.1
    case Some(device) =>
      (match NewExtendedId(start + device)
       case Some(id) => Some(DedicatedSingle(id))
       case None => None)
    case None =>
      var end := start + 0xFF;
      (match (NewExtendedId(start), NewExtendedId(end))
       case (Some(to), Some(from)) => Some(Range(to, from))
       case _ => None)
  }

  /**
   * The filter list of `new`: the first eight pairs mapped with `FilterFor`, then
   * `while !filters.is_full()` pushes disabled filters.
   */
  method BuildFilters(rodosIds: seq<(U16, Option<Byte>)>) returns (filters: seq<ExtendedFilter>)
    ensures |filters| == FilterSlots
    ensures forall i :: 0 <= i < Min(|rodosIds|, FilterSlots) ==> filters[i] == FilterFor(rodosIds[i]).value
    ensures forall i :: Min(|rodosIds|, FilterSlots) <= i < FilterSlots ==> filters[i] == Disabled
  {
    var kept := rodosIds[..Min(|rodosIds|, FilterSlots)];
    filters := seq(|kept|, i requires 0 <= i < |kept| => FilterFor(kept[i]).value);
    ghost var user := filters;
    while |filters| < FilterSlots
      invariant |user| <= |filters| <= FilterSlots && filters[..|user|] == user
      invariant forall i :: |user| <= i < |filters| ==> filters[i] == Disabled
      decreases FilterSlots - |filters|
    {
      filters := filters + [Disabled];
    }
  }

  /** The id of `device` on `topic` decodes back to the pair: `decode_id` inverts the construction. */
  lemma DecodeIdRoundTrip(topic: U16, device: Byte)
    ensures BaseId(topic) + device < 0x1_0000_0000
    ensures RodosCanReceiver.DecodeId(BaseId(topic) + device) == (topic, device)
  {
    var id: U32 := BaseId(topic) + device;
    assert id == (RodosCanId * 0x1_0000 + topic) * 0x100 + device;
    assert id / 0x100 == RodosCanId * 0x1_0000 + topic;
    assert (RodosCanId * 0x1_0000 + topic) % 0x1_0000 == topic;
  }

  /** Every id a topic's catch-all range spans decodes to that topic. */
  lemma RangeSpansTopic(topic: U16, id: nat)
    requires FilterFor((topic, None)).value.to <= id <= FilterFor((topic, None)).value.from
    ensures id < 0x1_0000_0000 && RodosCanReceiver.DecodeId(id) == (topic, id - BaseId(topic))
  {
    DecodeIdRoundTrip(topic, id - BaseId(topic));
  }
}
