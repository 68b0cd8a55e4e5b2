/**
 * `CanPeriphConfig` of tmtc-air/src/can_config.rs: a list of at most eight
 * standard-id filters, filled by `add_receive_topic` and `add_receive_topic_range`
 * and padded with disabled filters by `activate`. The peripheral calls (`set_config`,
 * `set_bitrate`, the configurator's buffered mode) are not modelled.
 */
module CanConfig {
  import opened Common

  const FilterSlots := 8

  /** The largest 11-bit standard id; `StandardId::new(..).unwrap()` panics above it. */
  const MaxStandardId := 0x7FF

  type StandardId = x: int | 0 <= x <= MaxStandardId

  /** `StandardFilter`, with the `Range` fields named as in the source. */
  datatype StandardFilter = DedicatedSingle(id: StandardId) | Range(from: StandardId, to: StandardId) | Disabled

  /** `FiltersFullError`. */
  datatype FiltersFullError = FiltersFullError

  /** `self.filters.push(f)` on the bounded list: refused, list unchanged, when the eight slots are taken. */
  function Push(filters: seq<StandardFilter>, f: StandardFilter): (r: (seq<StandardFilter>, Result<(), FiltersFullError>))
    ensures |filters| < FilterSlots ==> r == (filters + [f], Ok(()))
    ensures |filters| >= FilterSlots ==> r == (filters, Err(FiltersFullError))
  {
    if |filters| < FilterSlots then (filters + [f], Ok(())) else (filters, Err(FiltersFullError))
  }

  /** The list after pushing `fs` one by one from `filters`, ignoring refusals, as a caller's chain of adds. */
  function PushAll(filters: seq<StandardFilter>, fs: seq<StandardFilter>): (r: seq<StandardFilter>)
    requires |filters| <= FilterSlots
    ensures |r| <= FilterSlots
    decreases |fs|
  {
    if fs == [] then filters else PushAll(Push(filters, fs[0]).0, fs[1..])
  }

  class CanPeriphConfig {
    var filters: seq<StandardFilter>

    ghost predicate Valid()
      reads this
    {
      |filters| <= FilterSlots
    }

    /** `new(configurator)`: no filters. */
    constructor ()
      ensures Valid() && filters == []
    {
      filters := [];
    }

    /** `add_receive_topic(topic)`: one `DedicatedSingle` filter. */
    method AddReceiveTopic(topic: U16) returns (r: Result<(), FiltersFullError>)
      requires Valid() && topic <= MaxStandardId
      modifies this
      ensures Valid()
      ensures (filters, r) == Push(old(filters), DedicatedSingle(topic))
    {
      var filter := DedicatedSingle(topic);
      if |filters| >= FilterSlots {
        return Err(FiltersFullError);
      }
      filters := filters + [filter];
      return Ok(());
    }

    /** `add_receive_topic_range(range)`: `Range { from: range.0, to: range.1 }`, in whatever order they come. */
    method AddReceiveTopicRange(range: (U16, U16)) returns (r: Result<(), FiltersFullError>)
      requires Valid() && range.0 <= MaxStandardId && range.1 <= MaxStandardId
      modifies this
      ensures Valid()
      ensures (filters, r) == Push(old(filters), Range(range.0, range.1))
    {
      var filter := Range(range.0, range.1);
      if |filters| >= FilterSlots {
        return Err(FiltersFullError);
      }
      filters := filters + [filter];
      return Ok(());
    }

    /**
     * The padding of `activate`: `while !self.filters.is_full()` pushes a disabled
     * filter; the eight slots are what the peripheral is given.
     */
    method Activate() returns (slots: seq<StandardFilter>)
      requires Valid()
      modifies this
      ensures Valid()
      ensures filters == slots == PadTo(old(filters), FilterSlots, Disabled)
    {
      ghost var user := filters;
      while |filters| < FilterSlots
        invariant |user| <= |filters| <= FilterSlots && filters[..|user|] == user
        invariant forall i :: |user| <= i < |filters| ==> filters[i] == Disabled
        decreases FilterSlots - |filters|
      {
        filters := filters + [Disabled];
      }
      slots := filters;
    }
  }

  /** A chain of adds keeps the first eight filters in order and refuses the rest. */
  lemma {:induction false} PushAllKeepsFirstEight(filters: seq<StandardFilter>, fs: seq<StandardFilter>)
    requires |filters| <= FilterSlots
    ensures PushAll(filters, fs) == (filters + fs)[..Min(|filters| + |fs|, FilterSlots)]
    decreases |fs|
  {
    if fs == [] {
      assert (filters + fs)[..|filters|] == filters;
    } else {
      var next := Push(filters, fs[0]).0;
      PushAllKeepsFirstEight(next, fs[1..]);
      if |filters| < FilterSlots {
        assert next + fs[1..] == filters + fs;
      } else {
        assert (filters + fs)[..FilterSlots] == filters;
        assert (filters + fs[1..])[..FilterSlots] == filters;
      }
    }
  }

  /** On activation the user filters form the prefix of the eight slots, in insertion order, and the rest are disabled. */
  lemma ActivatedSlots(fs: seq<StandardFilter>)
    ensures var slots := PadTo(PushAll([], fs), FilterSlots, Disabled);
      && |slots| == FilterSlots
      && (forall i :: 0 <= i < Min(|fs|, FilterSlots) ==> slots[i] == fs[i])
      && (forall i :: Min(|fs|, FilterSlots) <= i < FilterSlots ==> slots[i] == Disabled)
  {
    PushAllKeepsFirstEight([], fs);
    assert [] + fs == fs;
  }
}
