/** Concurrent slots of app.go: PageBuilder.Slot and the gathering half of
    PageBuilder.Render. */
module Pages {
  import opened Wrappers

  datatype SlotRequest = SlotRequest(key: string, component: string, props: string)

  /** What a slot's render came to: its markup, or an error. */
  type Outcome = Result<string>

  function SlotError(key: string, message: string): string {
    "revelt page: rendering slot \"" + key + "\": " + message
  }

  ghost predicate FirstFailure(outcomes: seq<Outcome>, i: nat) {
    i < |outcomes| && outcomes[i].Err? && forall j | 0 <= j < i :: outcomes[j].Ok?
  }

  /** Of the first `n` slots, slot `i` is the last with its key. */
  ghost predicate LastWithKey(slots: seq<SlotRequest>, n: nat, i: nat)
    requires n <= |slots|
  {
    i < n && forall j | i < j < n :: slots[j].key != slots[i].key
  }

  ghost predicate HasKey(slots: seq<SlotRequest>, n: nat, key: string)
    requires n <= |slots|
  {
    exists i | 0 <= i < n :: slots[i].key == key
  }

  /** Each key of the first `n` slots, with the outcome of its last slot. */
  ghost predicate DataIs(slots: seq<SlotRequest>, outcomes: seq<Outcome>, n: nat, data: map<string, string>)
    requires n <= |slots| == |outcomes|
  {
    (forall i | 0 <= i < n :: outcomes[i].Ok?) && KeysAre(slots, n, data) && ValuesAre(slots, outcomes, n, data)
  }

  ghost predicate KeysAre(slots: seq<SlotRequest>, n: nat, data: map<string, string>)
    requires n <= |slots|
  {
    forall key :: key in data <==> HasKey(slots, n, key)
  }

  ghost predicate ValuesAre(slots: seq<SlotRequest>, outcomes: seq<Outcome>, n: nat, data: map<string, string>)
    requires n <= |slots| == |outcomes|
  {
    forall i: nat | LastWithKey(slots, n, i) ::
      outcomes[i].Ok? && slots[i].key in data && data[slots[i].key] == outcomes[i].value
  }

  /** What rendering the slots from left to right would come to: the first failing
      slot's error, or each key's last slot. */
  ghost predicate PageIs(slots: seq<SlotRequest>, outcomes: seq<Outcome>, page: Result<map<string, string>>)
    requires |slots| == |outcomes|
  {
    match page
    case Err(message) =>
      exists i: nat | FirstFailure(outcomes, i) :: message == SlotError(slots[i].key, outcomes[i].message)
    case Ok(data) => DataIs(slots, outcomes, |slots|, data)
  }

  function UpTo(n: nat): (s: set<nat>)
    ensures forall i: nat :: i in s <==> i < n
  {
    if n == 0 then {} else UpTo(n - 1) + {n - 1}
  }

  class PageBuilder {
    var slots: seq<SlotRequest>

    constructor ()
      ensures slots == []
    {
      slots := [];
    }

    method Slot(key: string, component: string, props: string)
      modifies this
      ensures slots == old(slots) + [SlotRequest(key, component, props)]
    {
      slots := slots + [SlotRequest(key, component, props)];
    }

    /** The goroutines finish in any order; `outcomes[i]` is what slot i's render
        comes to. */
    method Render(outcomes: seq<Outcome>) returns (page: Result<map<string, string>>)
      requires |outcomes| == |slots|
      ensures PageIs(slots, outcomes, page)
    {
      var results := new (string, Outcome)[|slots|](_ => ("", Ok("")));
      var running := UpTo(|slots|);
      while running != {}
        invariant running <= UpTo(|slots|)
        invariant forall i: nat | i < |slots| && i !in running :: results[i] == (slots[i].key, outcomes[i])
        decreases running
      {
        var i :| i in running;
        results[i] := (slots[i].key, outcomes[i]);
        running := running - {i};
      }
      page := Collect(slots, outcomes, results);
    }
  }

  /** The loop over the results, once all goroutines are done. */
  method Collect(ghost slots: seq<SlotRequest>, ghost outcomes: seq<Outcome>, results: array<(string, Outcome)>)
    returns (page: Result<map<string, string>>)
    requires |slots| == |outcomes| == results.Length
    requires forall i: nat | i < |slots| :: results[i] == (slots[i].key, outcomes[i])
    ensures PageIs(slots, outcomes, page)
  {
    var data: map<string, string> := map[];
    for i := 0 to results.Length
      invariant DataIs(slots, outcomes, i, data)
    {
      var (key, outcome) := results[i];
      if outcome.Err? {
        assert FirstFailure(outcomes, i);
        return Err(SlotError(key, outcome.message));
      }
      AddSlot(slots, outcomes, i, data);
      data := data[key := outcome.value];
    }
    page := Ok(data);
  }

  lemma AddSlot(slots: seq<SlotRequest>, outcomes: seq<Outcome>, i: nat, data: map<string, string>)
    requires i < |slots| == |outcomes| && outcomes[i].Ok? && DataIs(slots, outcomes, i, data)
    ensures DataIs(slots, outcomes, i + 1, data[slots[i].key := outcomes[i].value])
  {
    AddKey(slots, i, data, outcomes[i].value);
    AddValue(slots, outcomes, i, data);
  }

  lemma HasKeyStep(slots: seq<SlotRequest>, i: nat, key: string)
    requires i < |slots|
    ensures HasKey(slots, i + 1, key) <==> HasKey(slots, i, key) || slots[i].key == key
  {}

  lemma AddKey(slots: seq<SlotRequest>, i: nat, data: map<string, string>, value: string)
    requires i < |slots| && KeysAre(slots, i, data)
    ensures KeysAre(slots, i + 1, data[slots[i].key := value])
  {
    var data' := data[slots[i].key := value];
    forall key ensures key in data' <==> HasKey(slots, i + 1, key) {
      HasKeyStep(slots, i, key);
    }
  }

  lemma LastWithKeyStep(slots: seq<SlotRequest>, i: nat, j: nat)
    requires i < |slots| && LastWithKey(slots, i + 1, j)
    ensures j == i || (LastWithKey(slots, i, j) && slots[i].key != slots[j].key)
  {}

  lemma AddValue(slots: seq<SlotRequest>, outcomes: seq<Outcome>, i: nat, data: map<string, string>)
    requires i < |slots| == |outcomes| && outcomes[i].Ok? && ValuesAre(slots, outcomes, i, data)
    ensures ValuesAre(slots, outcomes, i + 1, data[slots[i].key := outcomes[i].value])
  {
    var data' := data[slots[i].key := outcomes[i].value];
    forall j: nat | LastWithKey(slots, i + 1, j)
      ensures outcomes[j].Ok? && slots[j].key in data' && data'[slots[j].key] == outcomes[j].value
    {
      LastWithKeyStep(slots, i, j);
    }
  }

  lemma {:induction false} HasLast(slots: seq<SlotRequest>, i: nat) returns (last: nat)
    requires i < |slots|
    ensures LastWithKey(slots, |slots|, last) && slots[last].key == slots[i].key
    decreases |slots| - i
  {
    if j :| i < j < |slots| && slots[j].key == slots[i].key {
      last := HasLast(slots, j);
    } else {
      last := i;
    }
  }

  lemma DataIsUnique(slots: seq<SlotRequest>, outcomes: seq<Outcome>,
                     one: map<string, string>, other: map<string, string>)
    requires |slots| == |outcomes| && DataIs(slots, outcomes, |slots|, one) && DataIs(slots, outcomes, |slots|, other)
    ensures one == other
  {
    forall key ensures key in one <==> key in other {
      assert key in one <==> HasKey(slots, |slots|, key);
    }
    forall key | key in one ensures one[key] == other[key] {
      assert HasKey(slots, |slots|, key);
      var i :| 0 <= i < |slots| && slots[i].key == key;
      var last := HasLast(slots, i);
    }
  }

  /** Schedule independence: that leaves one page, or one error, whatever the
      order in which the goroutines finish; an error exactly when a slot fails. */
  lemma PageIsUnique(slots: seq<SlotRequest>, outcomes: seq<Outcome>,
                     one: Result<map<string, string>>, other: Result<map<string, string>>)
    requires |slots| == |outcomes| && PageIs(slots, outcomes, one) && PageIs(slots, outcomes, other)
    ensures one == other
    ensures one.Err? <==> exists i :: 0 <= i < |outcomes| && outcomes[i].Err?
  {
    if one.Ok? && other.Ok? {
      DataIsUnique(slots, outcomes, one.value, other.value);
    } else {
      var i: nat :| FirstFailure(outcomes, i);
      assert one.Err? && other.Err?;
      assert forall j: nat | FirstFailure(outcomes, j) :: j == i;
    }
  }
}
