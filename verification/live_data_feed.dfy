/**
 * `LiveDataFeed` (livedatafeed.py): the object shared by the serial reader
 * and the plotting timers.  It holds two independent channels:
 *  - a single-slot, last-writer-wins cell (`cur_data`, `has_new_data`);
 *  - a history of `(timestamp, temperature)` pairs kept to the newest 1000
 *    (`list_data`, `updated_list`).
 * The two compositions the monitor windows perform on a feed -- the fast
 * timer's drain and the history reset -- are methods here as well.
 */
module Feed {
  import opened Wrappers

  /** The reading the monitor publishes: `dict(timestamp=..., temperature=...)`. */
  datatype Reading = Reading(timestamp: real, temperature: real)

  /** One history entry, the tuple `(timestamp, temperature)`. */
  type Entry = (real, real)

  /** The most entries the history keeps. */
  const Capacity: nat := 1000

  /** The tuple `append_data` builds from a reading. */
  function ToEntry(data: Reading): Entry
  {
    (data.timestamp, data.temperature)
  }

  /**
   * The history after one `append_data`: the entry goes at the end, and if
   * the list then exceeds the capacity its oldest entry is popped.
   */
  function Appended(h: seq<Entry>, e: Entry): (r: seq<Entry>)
    ensures |h| <= Capacity ==> |r| <= Capacity
    ensures |r| > 0 && r[|r| - 1] == e
    ensures |h| < Capacity ==> r == h + [e]
    ensures |h| == Capacity ==> r == h[1..] + [e]
  {
    var grown := h + [e];
    if |grown| > Capacity then grown[1..] else grown
  }

  /** The history after appending `es` one by one. */
  function AppendAll(h: seq<Entry>, es: seq<Entry>): seq<Entry>
    decreases |es|
  {
    if es == [] then h else AppendAll(Appended(h, es[0]), es[1..])
  }

  /** The newest `Capacity` entries of `s` (all of them when there are fewer). */
  function Newest(s: seq<Entry>): (r: seq<Entry>)
    ensures |r| <= Capacity
  {
    if |s| <= Capacity then s else s[|s| - Capacity..]
  }

  /** Dropping entries from the front that the capacity would drop anyway changes nothing. */
  lemma NewestOfSuffix(s: seq<Entry>, d: nat)
    requires d <= |s| && |s| - d >= Capacity
    ensures Newest(s[d..]) == Newest(s)
  {
  }

  /**
   * Bounded FIFO: starting from any history within capacity, appending a run
   * of entries leaves exactly the newest `Capacity` of old-and-new together,
   * oldest evicted first.
   */
  lemma {:induction false} AppendAllKeepsNewest(h: seq<Entry>, es: seq<Entry>)
    requires |h| <= Capacity
    ensures AppendAll(h, es) == Newest(h + es)
    decreases |es|
  {
    if es == [] {
      assert h + es == h;
    } else {
      var h' := Appended(h, es[0]);
      AppendAllKeepsNewest(h', es[1..]);
      var all := h + es;
      assert h + [es[0]] + es[1..] == all;
      if |h| < Capacity {
        assert h' + es[1..] == all;
      } else {
        assert h' + es[1..] == all[1..];
        NewestOfSuffix(all, 1);
      }
    }
  }

  /** Appending 1001 entries to an empty history leaves entries 2..1001. */
  lemma AppendOneTooMany(es: seq<Entry>)
    requires |es| == Capacity + 1
    ensures AppendAll([], es) == es[1..]
  {
    AppendAllKeepsNewest([], es);
    assert [] + es == es;
  }

  class LiveDataFeed {
    var curData: Option<Reading>
    var hasNewData: bool
    var listData: seq<Entry>
    var updatedList: bool

    /**
     * The history stays within capacity, and a raised `has_new_data` flag
     * always comes with a value to read.
     */
    ghost predicate Valid()
      reads this
    {
      |listData| <= Capacity && (hasNewData ==> curData.Some?)
    }

    constructor ()
      ensures Valid()
      ensures curData == None && !hasNewData
      ensures listData == [] && !updatedList
    {
      curData := None;
      hasNewData := false;
      listData := [];
      updatedList := false;
    }

    /** Writer side: overwrite the current value and raise the flag. */
    method AddData(data: Reading)
      modifies this`curData, this`hasNewData
      ensures curData == Some(data) && hasNewData
      ensures listData == old(listData) && updatedList == old(updatedList)
      ensures old(Valid()) ==> Valid()
    {
      curData := Some(data);
      hasNewData := true;
    }

    /** Reader side: the current value, with the flag lowered; the value stays. */
    method ReadData() returns (data: Option<Reading>)
      modifies this`hasNewData
      ensures data == curData && curData == old(curData) && !hasNewData
      ensures listData == old(listData) && updatedList == old(updatedList)
      ensures old(Valid()) ==> Valid()
    {
      hasNewData := false;
      data := curData;
    }

    /** Append one reading to the history, evicting the oldest beyond capacity. */
    method AppendData(data: Reading)
      modifies this`listData, this`updatedList
      ensures listData == Appended(old(listData), ToEntry(data)) && updatedList
      ensures curData == old(curData) && hasNewData == old(hasNewData)
      ensures old(Valid()) ==> Valid()
    {
      listData := listData + [ToEntry(data)];
      if |listData| > Capacity {
        listData := listData[1..];
      }
      updatedList := true;
    }

    /** The history as it stands (a snapshot), with the dirty flag lowered; nothing is drained. */
    method ReadList() returns (list: seq<Entry>)
      modifies this`updatedList
      ensures list == listData && listData == old(listData) && !updatedList
      ensures curData == old(curData) && hasNewData == old(hasNewData)
      ensures old(Valid()) ==> Valid()
    {
      updatedList := false;
      list := listData;
    }

    /** The fast timer's tick: move a newly published value into the history. */
    method Drain()
      requires Valid()
      modifies this
      ensures Valid()
      ensures curData == old(curData) && !hasNewData
      ensures old(hasNewData) ==>
        listData == Appended(old(listData), ToEntry(old(curData).value)) && updatedList
      ensures !old(hasNewData) ==>
        listData == old(listData) && updatedList == old(updatedList)
    {
      if hasNewData {
        var data := ReadData();
        AppendData(data.value);
      }
    }

    /** The monitor's signal reset: an empty, clean history; the value cell is untouched. */
    method ResetHistory()
      modifies this`listData, this`updatedList
      ensures listData == [] && !updatedList
      ensures curData == old(curData) && hasNewData == old(hasNewData)
      ensures old(Valid()) ==> Valid()
    {
      updatedList := false;
      listData := [];
    }
  }

  /**
   * Latest wins: two publishes with no read in between, then one read, gives
   * the second reading.
   */
  method LatestWins(first: Reading, second: Reading) returns (got: Option<Reading>)
    ensures got == Some(second)
  {
    var feed := new LiveDataFeed();
    feed.AddData(first);
    feed.AddData(second);
    got := feed.ReadData();
  }

  /**
   * The monitor's flow on a fresh feed: two publishes, two fast ticks, then
   * two history reads.  Only the latest reading reaches the history, the idle
   * tick appends nothing, and reading the history twice gives the same list
   * with the dirty flag lowered.
   */
  method TickThenReadTwice(first: Reading, second: Reading)
    returns (list1: seq<Entry>, list2: seq<Entry>, dirty: bool)
    ensures list1 == list2 == [(second.timestamp, second.temperature)]
    ensures !dirty
  {
    var feed := new LiveDataFeed();
    feed.AddData(first);
    feed.AddData(second);
    feed.Drain();
    feed.Drain();
    list1 := feed.ReadList();
    list2 := feed.ReadList();
    dirty := feed.updatedList;
  }
}
