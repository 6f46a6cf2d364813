/** The per-message event lookups: the dict comprehensions that map each
    event name to its text and to its `time` attribute, and `dict.get`
    with a default. */
module EventLookup {
  import opened Wrappers

  /** One child element of `<events>`, whatever its tag (normally
      `<event>`): its `name` and `time` attributes and its text, each of
      which may be absent (`None` in Python). */
  datatype Event = Event(name: Option<string>, time: Option<string>, text: Option<string>)

  /** The dict that `{k: v for ...}` builds from key/value pairs taken in
      order: each pair overwrites an earlier one with the same key. */
  function DictOf<K(==), V>(pairs: seq<(K, V)>): map<K, V> {
    if pairs == [] then map[]
    else
      var last := pairs[|pairs| - 1];
      DictOf(pairs[..|pairs| - 1])[last.0 := last.1]
  }

  /** The keys are exactly the keys of the pairs. */
  lemma {:induction false} DictOfKeys<K(!new), V>(pairs: seq<(K, V)>)
    ensures forall k :: k in DictOf(pairs) <==> exists i :: 0 <= i < |pairs| && pairs[i].0 == k
    decreases |pairs|
  {
    if pairs != [] {
      var n := |pairs|;
      var init := pairs[..n - 1];
      DictOfKeys(init);
      forall k | exists i :: 0 <= i < n && pairs[i].0 == k
        ensures k in DictOf(pairs)
      {
        var i :| 0 <= i < n && pairs[i].0 == k;
        if i < n - 1 {
          assert init[i].0 == k;
        }
      }
      forall k | k in DictOf(pairs)
        ensures exists i :: 0 <= i < n && pairs[i].0 == k
      {
        if k != pairs[n - 1].0 {
          assert DictOf(pairs) == DictOf(init)[pairs[n - 1].0 := pairs[n - 1].1];
          assert k in DictOf(init);
          var i :| 0 <= i < n - 1 && init[i].0 == k;
          assert pairs[i].0 == k;
        }
      }
    }
  }

  /** A key's value is the value of the last pair carrying it. */
  lemma {:induction false} DictOfLast<K(!new), V>(pairs: seq<(K, V)>)
    ensures forall k :: k in DictOf(pairs) ==>
              exists i :: 0 <= i < |pairs| && pairs[i] == (k, DictOf(pairs)[k]) &&
                          forall j :: i < j < |pairs| ==> pairs[j].0 != k
    decreases |pairs|
  {
    if pairs != [] {
      var n := |pairs|;
      var init, last := pairs[..n - 1], pairs[n - 1];
      DictOfLast(init);
      forall k | k in DictOf(pairs)
        ensures exists i :: 0 <= i < n && pairs[i] == (k, DictOf(pairs)[k]) &&
                            forall j :: i < j < n ==> pairs[j].0 != k
      {
        if k == last.0 {
          assert pairs[n - 1] == (k, DictOf(pairs)[k]);
        } else {
          var i :| 0 <= i < n - 1 && init[i] == (k, DictOf(init)[k]) &&
                   forall j :: i < j < n - 1 ==> init[j].0 != k;
          assert pairs[i] == (k, DictOf(pairs)[k]);
        }
      }
    }
  }

  /** The key/value pairs of one comprehension: event names with texts. */
  function TextPairs(events: seq<Event>): seq<(Option<string>, Option<string>)> {
    seq(|events|, i requires 0 <= i < |events| => (events[i].name, events[i].text))
  }

  /** The key/value pairs of the other: event names with `time` attributes. */
  function TimePairs(events: seq<Event>): seq<(Option<string>, Option<string>)> {
    seq(|events|, i requires 0 <= i < |events| => (events[i].name, events[i].time))
  }

  /** `{event.get('name'): event.text for event in events}`. */
  function Texts(events: seq<Event>): map<Option<string>, Option<string>> {
    DictOf(TextPairs(events))
  }

  /** `{event.get('name'): event.get('time') for event in events}`. */
  function Times(events: seq<Event>): map<Option<string>, Option<string>> {
    DictOf(TimePairs(events))
  }

  /** The value of a key is the value of its last pair. */
  lemma LastPairWins<K(!new), V>(pairs: seq<(K, V)>, i: int)
    requires 0 <= i < |pairs|
    requires forall j :: i < j < |pairs| ==> pairs[j].0 != pairs[i].0
    ensures pairs[i].0 in DictOf(pairs) && DictOf(pairs)[pairs[i].0] == pairs[i].1
  {
    DictOfKeys(pairs);
    DictOfLast(pairs);
    var k := pairs[i].0;
    var m := DictOf(pairs);
    var i' :| 0 <= i' < |pairs| && pairs[i'] == (k, m[k]) &&
              forall j :: i' < j < |pairs| ==> pairs[j].0 != k;
    assert i' == i;
  }

  /** `d.get(key, default)`. */
  function Get<K(==), V>(d: map<K, V>, key: K, default: V): V {
    if key in d then d[key] else default
  }

  /** `i` is the position of the last event named `name`. */
  ghost predicate IsLast(events: seq<Event>, i: int, name: Option<string>) {
    0 <= i < |events| && events[i].name == name &&
    forall j :: i < j < |events| ==> events[j].name != name
  }

  ghost predicate Occurs(events: seq<Event>, name: Option<string>) {
    exists i :: 0 <= i < |events| && events[i].name == name
  }

  /** Last occurrence wins, for both lookups at once: a name is a key of
      either map exactly when some event carries it, and then the text and
      the time found are those of the last event with that name. */
  lemma LastEventWins(events: seq<Event>, name: Option<string>)
    ensures name in Texts(events) <==> Occurs(events, name)
    ensures name in Times(events) <==> Occurs(events, name)
    ensures forall i :: IsLast(events, i, name) ==>
              Texts(events)[name] == events[i].text && Times(events)[name] == events[i].time
  {
    var texts, times := TextPairs(events), TimePairs(events);
    DictOfKeys(texts);
    DictOfKeys(times);
    if Occurs(events, name) {
      var i :| 0 <= i < |events| && events[i].name == name;
      assert texts[i].0 == name && times[i].0 == name;
    }
    forall i | IsLast(events, i, name)
      ensures Texts(events)[name] == events[i].text && Times(events)[name] == events[i].time
    {
      LastPairWins(texts, i);
      LastPairWins(times, i);
    }
  }

  /** The value `Texts(events).get(name, default)` finds: the text of the
      last event named `name`, or `default` when no event has that name. */
  lemma GetText(events: seq<Event>, name: Option<string>, default: Option<string>)
    ensures !Occurs(events, name) ==> Get(Texts(events), name, default) == default
    ensures forall i :: IsLast(events, i, name) ==> Get(Texts(events), name, default) == events[i].text
  {
    LastEventWins(events, name);
  }

  /** The same for `Times(events).get(name, default)`. */
  lemma GetTime(events: seq<Event>, name: Option<string>, default: Option<string>)
    ensures !Occurs(events, name) ==> Get(Times(events), name, default) == default
    ensures forall i :: IsLast(events, i, name) ==> Get(Times(events), name, default) == events[i].time
  {
    LastEventWins(events, name);
  }

  /** Every name that occurs has a last occurrence. */
  lemma {:induction false} LastExists(events: seq<Event>, name: Option<string>)
    requires Occurs(events, name)
    ensures exists i :: IsLast(events, i, name)
    decreases |events|
  {
    var n := |events|;
    if events[n - 1].name == name {
      assert IsLast(events, n - 1, name);
    } else {
      var init := events[..n - 1];
      var k :| 0 <= k < n && events[k].name == name;
      assert init[k].name == name;
      LastExists(init, name);
      var i :| IsLast(init, i, name);
      assert IsLast(events, i, name);
    }
  }
}
