/**
  base/util/MemoryKeyValueStore.cpp: a list of key-value pairs, searched from the front, and the
  trimming that base/util/PropertyFile.cpp adds to it; its files are not part of this model.
 */
module KeyValueStores {
  import opened Options

  datatype KeyValuePair = KeyValuePair(key: string, value: string)

  ghost predicate DistinctKeys(data: seq<KeyValuePair>) {
    forall i, j | 0 <= i < j < |data| :: data[i].key != data[j].key
  }

  /** The finite map that a list of pairs stands for; a pair hides those behind it. */
  function AsMap(data: seq<KeyValuePair>): map<string, string> {
    if data == [] then map[] else AsMap(data[1..])[data[0].key := data[0].value]
  }

  lemma {:induction false} InMap(data: seq<KeyValuePair>, key: string)
    ensures key in AsMap(data) <==> exists i :: 0 <= i < |data| && data[i].key == key
  {
    if data != [] {
      InMap(data[1..], key);
      if key in AsMap(data[1..]) {
        var i :| 0 <= i < |data[1..]| && data[1..][i].key == key;
        assert data[i + 1].key == key;
      }
      if i :| 1 <= i < |data| && data[i].key == key {
        assert data[1..][i - 1].key == key;
      }
    }
  }

  class KeyValueStore {
    var data: seq<KeyValuePair>

    ghost predicate Valid()
      reads this
    {
      DistinctKeys(data)
    }

    ghost function Map(): map<string, string>
      requires Valid()
      reads this
    {
      AsMap(data)
    }

    constructor ()
      ensures Valid() && Map() == map[]
    {
      data := [];
    }

    method Find(prop: string) returns (index: nat)
      ensures index <= |data|
      ensures index < |data| ==> data[index].key == prop
      ensures forall i | 0 <= i < index :: data[i].key != prop
    {
      for i := 0 to |data|
        invariant forall k | 0 <= k < i :: data[k].key != prop
      {
        if data[i].key == prop {
          return i;
        }
      }
      return |data|;
    }

    method ReadPropertyValue(prop: string) returns (value: Option<string>)
      requires Valid()
      ensures value == if prop in Map() then Some(Map()[prop]) else None
    {
      var i := Find(prop);
      FoundInMap(data, i, prop);
      if i < |data| {
        value := Some(data[i].value);
      } else {
        value := None;
      }
    }

    method SetPropertyValue(prop: string, value: string)
      requires Valid()
      modifies this
      ensures Valid() && Map() == old(Map())[prop := value]
    {
      hide AsMap;
      var i := Find(prop);
      SetMap(data, i, KeyValuePair(prop, value));
      assert forall k | 0 <= k < |data| && k != i :: data[k].key != prop;
      if i < |data| {
        data := data[i := KeyValuePair(prop, value)];
      } else {
        data := data + [KeyValuePair(prop, value)];
      }
    }

    method RemoveProperty(prop: string)
      requires Valid()
      modifies this
      ensures Valid() && Map() == old(Map()) - {prop}
    {
      hide AsMap;
      var i := Find(prop);
      FoundInMap(data, i, prop);
      if i < |data| {
        RemovedMap(data, i, prop);
        data := data[..i] + data[i + 1..];
      }
    }

    /** `PropertyFile::setPropertyValue` */
    method SetTrimmed(prop: string, value: string)
      requires Valid()
      modifies this
      ensures Valid() && Map() == old(Map())[Trim(prop) := Trim(value)]
    {
      SetPropertyValue(Trim(prop), Trim(value));
    }

    /** `PropertyFile::removeProperty` */
    method RemoveTrimmed(prop: string)
      requires Valid()
      modifies this
      ensures Valid() && Map() == old(Map()) - {Trim(prop)}
    {
      RemoveProperty(Trim(prop));
    }
  }

  lemma {:induction false} FoundInMap(data: seq<KeyValuePair>, i: nat, prop: string)
    requires i <= |data| && (i < |data| ==> data[i].key == prop)
    requires forall k | 0 <= k < i :: data[k].key != prop
    ensures prop in AsMap(data) <==> i < |data|
    ensures i < |data| ==> AsMap(data)[prop] == data[i].value
  {
    if i > 0 {
      FoundInMap(data[1..], i - 1, prop);
    }
  }

  lemma {:induction false} SetMap(data: seq<KeyValuePair>, i: nat, p: KeyValuePair)
    requires i <= |data| && (i < |data| ==> data[i].key == p.key)
    requires forall k | 0 <= k < i :: data[k].key != p.key
    ensures AsMap(if i < |data| then data[i := p] else data + [p]) == AsMap(data)[p.key := p.value]
  {
    var data' := if i < |data| then data[i := p] else data + [p];
    if i > 0 {
      SetMap(data[1..], i - 1, p);
      assert data'[1..] == if i < |data| then data[1..][i - 1 := p] else data[1..] + [p];
    } else if data == [] {
      assert data' == [p] && data'[1..] == [];
    } else {
      assert data'[1..] == data[1..];
      assert data'[0] == p;
    }
  }

  lemma {:induction false} RemovedMap(data: seq<KeyValuePair>, i: nat, prop: string)
    requires DistinctKeys(data) && i < |data| && data[i].key == prop
    ensures AsMap(data[..i] + data[i + 1..]) == AsMap(data) - {prop}
  {
    hide AsMap, DistinctKeys;
    var first, rest := data[0], data[1..];
    RestDistinct(data);
    FirstPair(first, rest);
    assert data == [first] + rest;
    if i > 0 {
      RemovedMap(rest, i - 1, prop);
      FirstPair(first, rest[..i - 1] + rest[i..]);
      KeysDiffer(data, 0, i);
      assert data[..i] + data[i + 1..] == [first] + (rest[..i - 1] + rest[i..]);
    } else {
      InMap(rest, prop);
      assert data[..i] + data[i + 1..] == rest;
    }
  }

  lemma FirstPair(p: KeyValuePair, rest: seq<KeyValuePair>)
    ensures AsMap([p] + rest) == AsMap(rest)[p.key := p.value]
  {
    assert ([p] + rest)[1..] == rest;
  }

  lemma RestDistinct(data: seq<KeyValuePair>)
    requires DistinctKeys(data) && data != []
    ensures DistinctKeys(data[1..]) && forall i | 0 <= i < |data[1..]| :: data[1..][i].key != data[0].key
  {
  }

  lemma KeysDiffer(data: seq<KeyValuePair>, i: nat, j: nat)
    requires DistinctKeys(data) && i < j < |data|
    ensures data[i].key != data[j].key
  {
  }

  // ---------------------------------------------------------------- trimming

  function TrimLeft(s: string): (t: string)
    ensures t != [] ==> t[0] != ' '
  {
    if s != [] && s[0] == ' ' then TrimLeft(s[1..]) else s
  }

  function TrimRight(s: string): (t: string)
    ensures t <= s
    ensures t != [] ==> t[|t| - 1] != ' '
  {
    if s != [] && s[|s| - 1] == ' ' then TrimRight(s[..|s| - 1]) else s
  }

  /** `StringBuffer::trim` takes spaces off both ends. */
  function Trim(s: string): string {
    TrimRight(TrimLeft(s))
  }

  ghost predicate Spaces(s: string) {
    forall i | 0 <= i < |s| :: s[i] == ' '
  }

  /** Nothing but the spaces at the ends is lost. */
  lemma {:induction false} TrimmedLeft(s: string)
    ensures |TrimLeft(s)| <= |s| && s[|s| - |TrimLeft(s)|..] == TrimLeft(s) && Spaces(s[..|s| - |TrimLeft(s)|])
  {
    if s != [] && s[0] == ' ' {
      TrimmedLeft(s[1..]);
    }
  }

  lemma {:induction false} TrimmedRight(s: string)
    ensures Spaces(s[|TrimRight(s)|..])
  {
    if s != [] && s[|s| - 1] == ' ' {
      TrimmedRight(s[..|s| - 1]);
    }
  }

  lemma TrimCuts(s: string) returns (front: string, back: string)
    ensures s == front + Trim(s) + back && Spaces(front) && Spaces(back)
    ensures Trim(s) != [] ==> Trim(s)[0] != ' ' && Trim(s)[|Trim(s)| - 1] != ' '
  {
    var t := TrimLeft(s);
    TrimmedLeft(s);
    TrimmedRight(t);
    hide TrimLeft, TrimRight, Spaces;
    front, back := s[..|s| - |t|], t[|Trim(s)|..];
    assert t == Trim(s) + back;
    assert s == front + t;
    assert Trim(s) != [] ==> Trim(s)[0] == t[0];
  }

  /** A string is left alone exactly if it neither begins nor ends with a space. */
  lemma TrimLeaves(s: string)
    ensures Trim(s) == s <==> (s == [] || (s[0] != ' ' && s[|s| - 1] != ' '))
    ensures Trim(Trim(s)) == Trim(s)
  {
    var t := Trim(s);
    if t != [] {
      assert t[0] == TrimLeft(s)[0];
    }
  }
}
