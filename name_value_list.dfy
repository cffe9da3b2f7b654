/**
 * The generic parameter list of the SIP stack (`generic-param` of RFC 3261,
 * section 25.1): a map from lower-cased parameter names to name/value
 * records, encoded with a configurable separator.
 */
module NameValues {
  import opened Wrappers
  import opened Text

  /** A parameter record: the name keeps the case it was given. */
  datatype NameValue = NameValue(name: string, value: string)

  type Table = map<string, NameValue>

  /** Every key is free of upper-case letters. */
  predicate LowerCaseKeys(m: Table) {
    forall k :: k in m ==> IsLowerCase(k)
  }

  /** Every record is filed under its own lower-cased name, as `set` files it. */
  predicate WellKeyed(m: Table) {
    forall k :: k in m ==> k == ToLower(m[k].name)
  }

  /** The case-insensitive lookup shared by `getNameValue`, `get` and friends. */
  function Lookup(m: Table, name: string): (r: Option<NameValue>)
    ensures r.Some? <==> ToLower(name) in m
    ensures WellKeyed(m) && r.Some? ==> ToLower(r.value.name) == ToLower(name)
  {
    var key := ToLower(name);
    if key in m then Some(m[key]) else None
  }

  /** `set`: file the record under its lower-cased name, replacing any record there. */
  function Assign(m: Table, nv: NameValue): (r: Table)
    ensures forall other {:trigger Lookup(r, other)} :: ToLower(other) == ToLower(nv.name) ==> Lookup(r, other) == Some(nv)
    ensures forall k :: k != ToLower(nv.name) ==> (k in r <==> k in m) && (k in m ==> r[k] == m[k])
    ensures |r| == if ToLower(nv.name) in m then |m| else |m| + 1
    ensures WellKeyed(m) ==> WellKeyed(r)
  {
    m[ToLower(nv.name) := nv]
  }

  /** `delete` and `remove`: drop the record filed under the lower-cased name. */
  function Erase(m: Table, name: string): (r: Table)
    ensures forall other {:trigger Lookup(r, other)} :: ToLower(other) == ToLower(name) ==> Lookup(r, other) == None
    ensures forall k :: k != ToLower(name) ==> (k in r <==> k in m) && (k in m ==> r[k] == m[k])
    ensures |r| == if ToLower(name) in m then |m| - 1 else |m|
    ensures WellKeyed(m) ==> WellKeyed(r)
  {
    var key := ToLower(name);
    assert key in m ==> m.Keys == (m - {key}).Keys + {key};
    m - {key}
  }

  /** `put`: file the record under `name` exactly as given, without lower-casing. */
  function Store(m: Table, name: string, nv: NameValue): (r: Table)
    ensures name in r && r[name] == nv
    ensures forall k :: k != name ==> (k in r <==> k in m) && (k in m ==> r[k] == m[k])
    ensures WellKeyed(m) ==> (WellKeyed(r) <==> name == ToLower(nv.name))
    ensures LowerCaseKeys(m) ==> (LowerCaseKeys(r) <==> IsLowerCase(name))
    ensures |r| == if name in m then |m| else |m| + 1
  {
    m[name := nv]
  }

  /**
   * `equals` as written: same size, and each key `k` of `a` is a key of `b`
   * whose record equals the record `a` files under the LOWER-CASED `k`.
   */
  predicate EqualsAsWritten(a: Table, b: Table) {
    && |a| == |b|
    && forall k :: k in a ==> k in b && ToLower(k) in a && b[k] == a[ToLower(k)]
  }

  /** `equals` as evidently intended: same size and the same record under every key. */
  predicate SameEntries(a: Table, b: Table) {
    && |a| == |b|
    && forall k :: k in a ==> k in b && b[k] == a[k]
  }

  /** Equal size and containment of entries make the two tables equal. */
  lemma SameEntriesIsEquality(a: Table, b: Table)
    ensures SameEntries(a, b) <==> a == b
  {
    if SameEntries(a, b) {
      var extra := b.Keys - a.Keys;
      assert b.Keys == a.Keys + extra && a.Keys * extra == {};
      assert |b.Keys| == |a.Keys| + |extra|;
      assert extra == {};
      assert a.Keys == b.Keys;
    }
  }

  /** On lower-case keys, which `set` alone produces, the source's `equals` is table equality. */
  lemma EqualsAsWrittenOnLowerCaseKeys(a: Table, b: Table)
    requires LowerCaseKeys(a)
    ensures EqualsAsWritten(a, b) <==> a == b
  {
    assert EqualsAsWritten(a, b) <==> SameEntries(a, b);
    SameEntriesIsEquality(a, b);
  }

  /** A table filled by `set` alone (well-keyed) equals itself under the source's `equals`. */
  lemma EqualsAsWrittenReflexiveWhenWellKeyed(m: Table)
    requires WellKeyed(m)
    ensures EqualsAsWritten(m, m)
  {
    EqualsAsWrittenOnLowerCaseKeys(m, m);
  }

  /** After `put("Foo", nv)` the source's `equals` calls a table unequal to itself. */
  lemma EqualsAsWrittenNotReflexive()
    ensures var m := map["Foo" := NameValue("Foo", "1")]; !EqualsAsWritten(m, m)
  {
    var m := map["Foo" := NameValue("Foo", "1")];
    assert ToLower("Foo")[0] == 'f';
    assert ToLower("Foo") !in m;
  }

  /** The records' texts, in the order the keys are listed. */
  function EntryTexts(m: Table, order: seq<string>, entryText: NameValue -> string): (texts: seq<string>)
    requires forall i :: 0 <= i < |order| ==> order[i] in m
    ensures |texts| == |order|
    ensures forall i :: 0 <= i < |order| ==> texts[i] == entryText(m[order[i]])
  {
    seq(|order|, i requires 0 <= i < |order| && order[i] in m => entryText(m[order[i]]))
  }

  /** `order` lists every key of `m` exactly once. */
  ghost predicate Enumerates(order: seq<string>, m: Table) {
    && (forall i, j :: 0 <= i < j < |order| ==> order[i] != order[j])
    && (forall k :: k in order <==> k in m)
  }

  /** Loop state of a walk over the keys: `order` lists, once each, the keys no longer in `todo`. */
  ghost predicate Walked(order: seq<string>, m: Table, todo: set<string>) {
    && todo <= m.Keys
    && (forall k :: k in order <==> k in m && k !in todo)
    && (forall i, j :: 0 <= i < j < |order| ==> order[i] != order[j])
  }

  lemma WalkStart(m: Table)
    ensures Walked([], m, m.Keys)
  {
  }

  lemma WalkStep(order: seq<string>, m: Table, todo: set<string>, key: string)
    requires Walked(order, m, todo) && key in todo
    ensures Walked(order + [key], m, todo - {key})
    ensures (order + [key])[..|order|] == order
    ensures forall i :: 0 <= i < |order| + 1 ==> (order + [key])[i] in m
  {
  }

  lemma WalkDone(order: seq<string>, m: Table)
    requires Walked(order, m, {})
    ensures Enumerates(order, m)
  {
  }

  /**
   * The table `clone` builds: the records under `order`, in that order,
   * each `set` again (so filed under its own lower-cased name).
   */
  function Reinsert(m: Table, order: seq<string>): (r: Table)
    requires forall i :: 0 <= i < |order| ==> order[i] in m
    ensures WellKeyed(r)
    ensures r.Values <= m.Values
    ensures |r| <= |order|
    decreases |order|
  {
    if order == [] then map[]
    else
      var last := order[|order| - 1];
      var r := Reinsert(m, order[..|order| - 1]);
      var key := ToLower(m[last].name);
      assert r[key := m[last]].Values <= r.Values + {m[last]};
      r[key := m[last]]
  }

  /** The keys of the copy are the lower-cased names of the records copied. */
  lemma {:induction false} ReinsertKeys(m: Table, order: seq<string>)
    requires forall i :: 0 <= i < |order| ==> order[i] in m
    ensures Reinsert(m, order).Keys == set k | k in order :: ToLower(m[k].name)
    decreases |order|
  {
    if order != [] {
      var init := order[..|order| - 1];
      var last := order[|order| - 1];
      ReinsertKeys(m, init);
      assert Reinsert(m, order) == Reinsert(m, init)[ToLower(m[last].name) := m[last]];
      SnocKeys(order, init, last);
      assert (set k | k in order :: ToLower(m[k].name))
          == (set k | k in init :: ToLower(m[k].name)) + {ToLower(m[last].name)};
    }
  }

  /** A list is its first part followed by its last element. */
  lemma SnocKeys(order: seq<string>, init: seq<string>, last: string)
    requires order != [] && init == order[..|order| - 1] && last == order[|order| - 1]
    ensures forall k :: k in order <==> k in init || k == last
  {
    assert order == init + [last];
  }

  /** Copying one more key extends the copy by that key's record. */
  lemma CopyExtend(m: Table, order: seq<string>, init: seq<string>, last: string)
    requires last in m && forall k :: k in order <==> k in init || k == last
    requires forall k :: k in order ==> k in m
    ensures (map k | k in order :: m[k]) == (map k | k in init && k in m :: m[k])[last := m[last]]
  {
  }

  /** A well-keyed table copied key by key, each key once, is copied exactly. */
  lemma {:induction false} ReinsertWellKeyed(m: Table, order: seq<string>)
    requires forall i :: 0 <= i < |order| ==> order[i] in m
    requires forall i, j :: 0 <= i < j < |order| ==> order[i] != order[j]
    requires WellKeyed(m)
    ensures Reinsert(m, order) == map k | k in order :: m[k]
    decreases |order|
  {
    if order != [] {
      var init := order[..|order| - 1];
      var last := order[|order| - 1];
      ReinsertWellKeyed(m, init);
      assert ToLower(m[last].name) == last;
      assert Reinsert(m, order) == Reinsert(m, init)[last := m[last]];
      SnocKeys(order, init, last);
      CopyExtend(m, order, init, last);
    }
  }

  /**
   * The parameter list. `hmap` and `separator` are the source's two fields;
   * the unsynchronised and the synchronised map are the same map here.
   */
  class NameValueList {
    var hmap: Table
    var separator: string

    constructor ()
      ensures hmap == map[] && separator == ";"
    {
      hmap := map[];
      separator := ";";
    }

    /** The constructor that asks for a thread-safe map. */
    constructor Synchronized(sync: bool)
      ensures hmap == map[] && separator == ";"
    {
      hmap := map[];
      separator := ";";
    }

    method SetSeparator(sep: string)
      modifies this
      ensures separator == sep && hmap == old(hmap)
    {
      separator := sep;
    }

    /** `set(NameValue)`. */
    method Set(nv: NameValue)
      modifies this
      ensures hmap == Assign(old(hmap), nv) && separator == old(separator)
    {
      hmap := hmap[ToLower(nv.name) := nv];
    }

    /** `set(String, Object)`: a fresh record with the given name and value. */
    method SetValue(name: string, value: string)
      modifies this
      ensures hmap == Assign(old(hmap), NameValue(name, value)) && separator == old(separator)
    {
      var nameValue := NameValue(name, value);
      hmap := hmap[ToLower(name) := nameValue];
    }

    /** `getNameValue`: the record under the lower-cased name, or null. */
    function GetNameValue(name: string): (r: Option<NameValue>)
      reads this
      ensures r.None? <==> !HasNameValue(name)
      ensures r.Some? ==> r.value == hmap[ToLower(name)]
    {
      Lookup(hmap, name)
    }

    /** `getValue`: the value of the record under the lower-cased name, or null. */
    function GetValue(name: string): (r: Option<string>)
      reads this
      ensures r.None? <==> ToLower(name) !in hmap
      ensures r.Some? ==> r.value == hmap[ToLower(name)].value
    {
      match GetNameValue(name)
      case Some(nv) => Some(nv.value)
      case None => None
    }

    /** `getParameter`: the value's text, or null; values are already text here. */
    function GetParameter(name: string): (r: Option<string>)
      reads this
      ensures r.None? <==> !HasNameValue(name)
      ensures r.Some? ==> r.value == hmap[ToLower(name)].value
    {
      GetValue(name)
    }

    /** `hasNameValue` and `containsKey`: is there a record under the lower-cased name. */
    predicate HasNameValue(name: string)
      reads this
    {
      ToLower(name) in hmap
    }

    /** `get`: as `getNameValue`. */
    function Get(key: string): (r: Option<NameValue>)
      reads this
      ensures r.Some? <==> HasNameValue(key)
      ensures r.Some? ==> r.value == hmap[ToLower(key)]
    {
      Lookup(hmap, key)
    }

    /** `delete`: reports whether a record was there, and removes it. */
    method Delete(name: string) returns (removed: bool)
      modifies this
      ensures removed == (ToLower(name) in old(hmap))
      ensures hmap == Erase(old(hmap), name) && separator == old(separator)
      ensures !HasNameValue(name)
    {
      var lcName := ToLower(name);
      if lcName in hmap {
        hmap := hmap - {lcName};
        removed := true;
      } else {
        removed := false;
      }
    }

    /** `remove`: removes the record under the lower-cased key and returns it. */
    method Remove(key: string) returns (previous: Option<NameValue>)
      modifies this
      ensures previous == Lookup(old(hmap), key)
      ensures hmap == Erase(old(hmap), key) && separator == old(separator)
    {
      previous := Lookup(hmap, key);
      hmap := hmap - {ToLower(key)};
    }

    /** `put`: stores under `name` as given and returns what was there. */
    method Put(name: string, nv: NameValue) returns (previous: Option<NameValue>)
      modifies this
      ensures previous == (if name in old(hmap) then Some(old(hmap)[name]) else None)
      ensures hmap == Store(old(hmap), name, nv) && separator == old(separator)
    {
      previous := if name in hmap then Some(hmap[name]) else None;
      hmap := hmap[name := nv];
    }

    /**
     * `encode`: every record's own encoding (`entryText`), in the map's
     * iteration order, with one separator between each two neighbours.
     * The iteration order is unspecified; `order` is the one taken.
     */
    method Encode(entryText: NameValue -> string) returns (s: string, ghost order: seq<string>)
      ensures Enumerates(order, hmap) && |order| == |hmap|
      ensures s == Join(EntryTexts(hmap, order, entryText), separator)
    {
      s := "";
      order := [];
      var todo := hmap.Keys;
      WalkStart(hmap);
      while todo != {}
        invariant Walked(order, hmap, todo)
        invariant |order| + |todo| == |hmap|
        invariant s == Join(EntryTexts(hmap, order, entryText), separator)
                       + (if order != [] && todo != {} then separator else "")
        decreases todo
      {
        var key :| key in todo;
        ghost var texts := EntryTexts(hmap, order, entryText);
        s := s + entryText(hmap[key]);
        if order != [] {
          JoinAppend(texts, entryText(hmap[key]), separator);
        }
        WalkStep(order, hmap, todo, key);
        assert EntryTexts(hmap, order + [key], entryText) == texts + [entryText(hmap[key])];
        order := order + [key];
        todo := todo - {key};
        if todo != {} {
          s := s + separator;
        }
      }
      WalkDone(order, hmap);
    }

    /** `equals` against another list, exactly as the source compares. */
    method Equals(other: NameValueList) returns (equal: bool)
      ensures equal == EqualsAsWritten(hmap, other.hmap)
    {
      if |hmap| != |other.hmap| {
        return false;
      }
      var todo := hmap.Keys;
      while todo != {}
        invariant todo <= hmap.Keys
        invariant forall k :: k in hmap && k !in todo
                    ==> k in other.hmap && ToLower(k) in hmap && other.hmap[k] == hmap[ToLower(k)]
        decreases todo
      {
        var key :| key in todo;
        var nv1 := GetNameValue(key);
        if key !in other.hmap {
          return false;
        }
        var nv2 := other.hmap[key];
        if nv1 != Some(nv2) {
          return false;
        }
        todo := todo - {key};
      }
      return true;
    }

    /**
     * `clone`: a new list with the same separator into which every record
     * is `set` again. It is filed under its own lower-cased name, so a
     * well-keyed list is copied exactly.
     */
    method Clone() returns (c: NameValueList, ghost order: seq<string>)
      ensures fresh(c)
      ensures c.separator == separator
      ensures Enumerates(order, hmap) && c.hmap == Reinsert(hmap, order)
      ensures WellKeyed(hmap) ==> c.hmap == hmap
    {
      c := new NameValueList();
      c.SetSeparator(separator);
      order := [];
      var todo := hmap.Keys;
      WalkStart(hmap);
      while todo != {}
        invariant Walked(order, hmap, todo)
        invariant fresh(c)
        invariant c.separator == separator
        invariant c.hmap == Reinsert(hmap, order)
        decreases todo
      {
        var key :| key in todo;
        c.Set(hmap[key]);
        WalkStep(order, hmap, todo, key);
        order := order + [key];
        todo := todo - {key};
      }
      WalkDone(order, hmap);
      if WellKeyed(hmap) {
        ReinsertWellKeyed(hmap, order);
        assert (map k | k in order :: hmap[k]) == hmap;
      }
    }

    method Clear()
      modifies this
      ensures hmap == map[] && Size() == 0 && separator == old(separator)
    {
      hmap := map[];
    }

    function Size(): (n: nat)
      reads this
      ensures n == 0 <==> hmap == map[]
    {
      |hmap|
    }

    predicate IsEmpty()
      reads this
      ensures IsEmpty() <==> Size() == 0
    {
      |hmap| == 0
    }
  }
}
