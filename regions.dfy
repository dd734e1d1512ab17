/**
 * `china_value`: the province list turned into a table from region name to
 * confirmed count, built with `city_value[city] = int(value)`.
 */
module Regions {
  import opened Wrappers
  import opened Values

  /**
   * A Python dict from JSON values to integers: its keys in insertion order
   * and the value stored under each.
   */
  datatype Dict = Dict(keys: seq<Value>, values: map<Value, int>) {

    /** Every key once, and exactly the keys of the map. */
    predicate Valid() {
      && (forall i, j :: 0 <= i < j < |keys| ==> keys[i] != keys[j])
      && (forall k :: k in keys ==> k in values)
      && (forall k :: k in values ==> k in keys)
    }
  }

  const EmptyDict := Dict([], map[])

  /**
   * `d[k] = v`: a new key goes to the end of the order, an existing key
   * keeps its place and only its value changes.
   */
  function Put(d: Dict, k: Value, v: int): (r: Dict)
    ensures k in r.values && r.values[k] == v
    ensures forall k' :: k' != k ==> (k' in r.values <==> k' in d.values)
    ensures forall k' :: k' != k && k' in d.values ==> r.values[k'] == d.values[k']
    ensures |d.keys| <= |r.keys| && r.keys[..|d.keys|] == d.keys
    ensures k in d.values ==> r.keys == d.keys
    ensures k !in d.values ==> r.keys == d.keys + [k]
  {
    Dict(if k in d.values then d.keys else d.keys + [k], d.values[k := v])
  }

  /** Assignment keeps a dict well-formed. */
  lemma PutValid(d: Dict, k: Value, v: int)
    requires d.Valid()
    ensures Put(d, k, v).Valid()
  {
  }

  /** `item.get('name')`: the key a record is stored under (`None` when absent). */
  function Name(item: Record): Value {
    Get(item, "name", Null)
  }

  /** `item.get('value')` */
  function Count(item: Record): Value {
    Get(item, "value", Null)
  }

  /** What `china_value` returns for the province list, or the exception of the first bad value. */
  function CityValue(items: seq<Record>): Result<Dict, Error> {
    if items == [] then Success(EmptyDict)
    else
      var n := |items| - 1;
      var d :- CityValue(items[..n]);
      var value :- ToInt(Count(items[n]));
      Success(Put(d, Name(items[n]), value))
  }

  /** The table is a well-formed dict: every key once, and exactly the keys of the map. */
  lemma {:induction false} CityValueValid(items: seq<Record>, d: Dict)
    requires CityValue(items) == Success(d)
    ensures d.Valid()
  {
    if items != [] {
      var n := |items| - 1;
      var prev := CityValue(items[..n]).value;
      CityValueValid(items[..n], prev);
      PutValid(prev, Name(items[n]), ToInt(Count(items[n])).value);
    }
  }

  /** Building the table fails exactly when some record's value is not an integer. */
  lemma {:induction false} CityValueSucceeds(items: seq<Record>)
    ensures CityValue(items).Success? <==> forall i :: 0 <= i < |items| ==> ToInt(Count(items[i])).Success?
  {
    if items != [] {
      var n := |items| - 1;
      var init := items[..n];
      CityValueSucceeds(init);
      CityValueLastStep(items);
      assert forall i :: 0 <= i < n ==> init[i] == items[i];
    }
  }

  /** The table for a non-empty list is built exactly when the one for all but the last record is and the last value converts. */
  lemma CityValueLastStep(items: seq<Record>)
    requires items != []
    ensures CityValue(items).Success? <==>
      CityValue(items[..|items| - 1]).Success? && ToInt(Count(items[|items| - 1])).Success?
  {
  }

  /** Some record is stored under `k`. */
  ghost predicate Named(items: seq<Record>, k: Value) {
    exists i :: 0 <= i < |items| && Name(items[i]) == k
  }

  /** A name other than the last record's is named in the list exactly when it is named before the last record. */
  lemma NamedBeforeLast(items: seq<Record>, k: Value)
    requires items != [] && k != Name(items[|items| - 1])
    ensures Named(items, k) <==> Named(items[..|items| - 1], k)
  {
    var n := |items| - 1;
    if Named(items, k) {
      var i :| 0 <= i < |items| && Name(items[i]) == k;
      assert items[..n][i] == items[i];
    }
    if Named(items[..n], k) {
      var i :| 0 <= i < n && Name(items[..n][i]) == k;
      assert items[..n][i] == items[i];
    }
  }

  /** The table's keys are exactly the distinct names of the records. */
  lemma {:induction false} CityValueKeys(items: seq<Record>, d: Dict)
    requires CityValue(items) == Success(d)
    ensures forall k :: k in d.values <==> Named(items, k)
  {
    if items != [] {
      var n := |items| - 1;
      var prev := CityValue(items[..n]).value;
      CityValueKeys(items[..n], prev);
      var last := Name(items[n]);
      assert d == Put(prev, last, ToInt(Count(items[n])).value);
      assert Named(items, last);
      forall k | k != last
        ensures k in d.values <==> Named(items, k)
      {
        NamedBeforeLast(items, k);
      }
    }
  }

  /** A repeated name holds the value of its last record; values are overwritten, not summed. */
  lemma {:induction false} LastOccurrenceWins(items: seq<Record>, d: Dict, i: int)
    requires CityValue(items) == Success(d)
    requires 0 <= i < |items|
    requires forall j :: i < j < |items| ==> Name(items[j]) != Name(items[i])
    ensures Name(items[i]) in d.values
    ensures ToInt(Count(items[i])) == Success(d.values[Name(items[i])])
  {
    var n := |items| - 1;
    if i < n {
      var prev := CityValue(items[..n]).value;
      assert items[..n][i] == items[i];
      LastOccurrenceWins(items[..n], prev, i);
    }
  }

  /** A key of the table built from all records but the last is the name of one of those records. */
  lemma NamedEarlier(items: seq<Record>, prev: Dict, k: Value) returns (j: int)
    requires items != [] && CityValue(items[..|items| - 1]) == Success(prev)
    requires k in prev.values
    ensures 0 <= j < |items| - 1 && Name(items[j]) == k
  {
    var init := items[..|items| - 1];
    CityValueKeys(init, prev);
    j :| 0 <= j < |init| && Name(init[j]) == k;
    assert init[j] == items[j];
  }

  /** A name that is not a key of the table built from all records but the last is new with the last record. */
  lemma NotNamedEarlier(items: seq<Record>, prev: Dict, k: Value)
    requires items != [] && CityValue(items[..|items| - 1]) == Success(prev)
    requires k !in prev.values
    ensures forall j :: 0 <= j < |items| - 1 ==> Name(items[j]) != k
  {
    var init := items[..|items| - 1];
    CityValueKeys(init, prev);
    forall j | 0 <= j < |init|
      ensures Name(items[j]) != k
    {
      assert init[j] == items[j];
    }
  }

  /** Every position of the key order holds a key of the table. */
  lemma KeyStored(items: seq<Record>, d: Dict, q: int)
    requires CityValue(items) == Success(d)
    requires 0 <= q < |d.keys|
    ensures d.keys[q] in d.values
  {
    CityValueValid(items, d);
  }

  /**
   * The keys are in order of first appearance: every record naming a later
   * key comes after some record naming an earlier one.
   */
  lemma {:induction false} KeysInFirstAppearanceOrder(items: seq<Record>, d: Dict, p: int, q: int, i: int)
    requires CityValue(items) == Success(d)
    requires 0 <= p < q < |d.keys|
    requires 0 <= i < |items| && Name(items[i]) == d.keys[q]
    ensures exists i' :: 0 <= i' < i && Name(items[i']) == d.keys[p]
  {
    var n := |items| - 1;
    var init := items[..n];
    var prev := CityValue(init).value;
    assert d == Put(prev, Name(items[n]), ToInt(Count(items[n])).value);
    assert d.keys[p] == prev.keys[p];
    KeyStored(init, prev, p);
    if q < |prev.keys| {
      assert d.keys[q] == prev.keys[q];
      var i0 := i;
      if i == n {
        KeyStored(init, prev, q);
        i0 := NamedEarlier(items, prev, prev.keys[q]);
      }
      assert init[i0] == items[i0];
      KeysInFirstAppearanceOrder(init, prev, p, q, i0);
      var i' :| 0 <= i' < i0 && Name(init[i']) == prev.keys[p];
      assert init[i'] == items[i'];
    } else {
      // the last key is new with the last record, so this record is the last one
      assert d.keys[q] !in prev.values;
      NotNamedEarlier(items, prev, d.keys[q]);
      assert i == n;
      var j := NamedEarlier(items, prev, d.keys[p]);
    }
  }

  /**
   * The record loop of `china_value`: one dict assignment per record; the
   * list `china_all` it also fills is never read.
   */
  method ChinaValue(items: seq<Record>) returns (r: Result<Dict, Error>)
    ensures r == CityValue(items)
  {
    var cityValue := EmptyDict;
    var i := 0;
    while i < |items|
      invariant 0 <= i <= |items|
      invariant CityValue(items[..i]) == Success(cityValue)
    {
      var item := items[i];
      assert items[..i + 1][..i] == items[..i];
      var city := Name(item);
      var value := ToInt(Count(item));
      if value.Failure? {
        FirstBadValue(items, i);
        return Failure(value.error);
      }
      cityValue := Put(cityValue, city, value.value);
      i := i + 1;
    }
    assert items[..i] == items;
    r := Success(cityValue);
  }

  /** Once a prefix fails, the whole list fails with the same exception. */
  lemma {:induction false} FirstBadValue(items: seq<Record>, i: int)
    requires 0 <= i < |items|
    requires CityValue(items[..i]).Success?
    requires ToInt(Count(items[i])).Failure?
    ensures CityValue(items) == Failure(ToInt(Count(items[i])).error)
  {
    var n := |items| - 1;
    var init := items[..n];
    if i < n {
      assert init[..i] == items[..i] && init[i] == items[i];
      FirstBadValue(init, i);
      assert CityValue(init).Failure?;
    } else {
      assert init == items[..i];
    }
  }

  /** Two records under one name: the later value is kept, not the sum. */
  lemma DuplicateNameOverwrites()
    ensures var items := [map["name" := Str("湖北"), "value" := Int(3)],
                          map["name" := Str("湖北"), "value" := Str("5")]];
            CityValue(items) == Success(Dict([Str("湖北")], map[Str("湖北") := 5]))
  {
    var items := [map["name" := Str("湖北"), "value" := Int(3)],
                  map["name" := Str("湖北"), "value" := Str("5")]];
    assert items[..1][..0] == [];
    assert items[..1] == [items[0]];
    assert CityValue(items[..1]) == Success(Dict([Str("湖北")], map[Str("湖北") := 3]));
    assert DigitsValue("5") == 5 by {
      assert "5"[..0] == "";
    }
    assert ToInt(Count(items[1])) == Success(5);
    var d1 := Dict([Str("湖北")], map[Str("湖北") := 3]);
    assert CityValue(items) == Success(Put(d1, Str("湖北"), 5));
    assert d1.values[Str("湖北") := 5] == map[Str("湖北") := 5];
  }
}
