/** The header multimap: an ordered association list as the reference model, and the class that
    keeps a map beside an order vector. */
module HeaderFields {
  import opened Wrappers
  import opened Text

  const CONTENT_TYPE := "content-type"
  const CONTENT_LENGTH := "content-length"
  const TRANSFER_ENCODING := "transfer-encoding"
  const HOST := "host"
  const CONNECTION := "connection"
  const DATE := "date"
  const EXPECT := "expect"
  const ETAG := "etag"
  const LAST_MODIFIED := "last-modified"
  const IF_MATCH := "if-match"
  const IF_NONE_MATCH := "if-none-match"
  const IF_MODIFIED_SINCE := "if-modified-since"
  const IF_UNMODIFIED_SINCE := "if-unmodified-since"

  /** The names above are in the form the collection stores. */
  lemma FramingKeysAreLower()
    ensures Lower(CONTENT_TYPE) == CONTENT_TYPE
    ensures Lower(CONTENT_LENGTH) == CONTENT_LENGTH
    ensures Lower(TRANSFER_ENCODING) == TRANSFER_ENCODING
    ensures Lower(HOST) == HOST
    ensures Lower(CONNECTION) == CONNECTION
    ensures Lower(DATE) == DATE
  {
    LowerFixed(CONTENT_TYPE);
    LowerFixed(CONTENT_LENGTH);
    LowerFixed(TRANSFER_ENCODING);
    LowerFixed(HOST);
    LowerFixed(CONNECTION);
    LowerFixed(DATE);
  }

  // ---------------------------------------------------------------- reference model

  datatype Field = Field(name: string, values: seq<string>)

  type FieldList = seq<Field>

  /** Names are lower-case and unique, and no name is without a value. */
  predicate WellFormed(l: FieldList) {
    && (forall i, j :: 0 <= i < j < |l| ==> l[i].name != l[j].name)
    && (forall i :: 0 <= i < |l| ==> l[i].values != [] && Lower(l[i].name) == l[i].name)
  }

  /** All values of a name, in order; none when the name is absent. */
  function Values(l: FieldList, name: string): seq<string> {
    if l == [] then []
    else if l[0].name == name then l[0].values
    else Values(l[1..], name)
  }

  predicate Has(l: FieldList, name: string) {
    exists i :: 0 <= i < |l| && l[i].name == name
  }

  /** The first value of a name. */
  function First(l: FieldList, name: string): Option<string> {
    var vs := Values(l, name);
    if vs == [] then None else Some(vs[0])
  }

  /** Gives `name` the values `vs`, in its old position or at the end. */
  function Put(l: FieldList, name: string, vs: seq<string>): FieldList {
    if l == [] then [Field(name, vs)]
    else if l[0].name == name then [Field(name, vs)] + l[1..]
    else [l[0]] + Put(l[1..], name, vs)
  }

  function Add(l: FieldList, name: string, value: string): FieldList {
    Put(l, name, Values(l, name) + [value])
  }

  function Drop(l: FieldList, name: string): FieldList {
    if l == [] then []
    else if l[0].name == name then Drop(l[1..], name)
    else [l[0]] + Drop(l[1..], name)
  }

  // ---------------------------------------------------------------- laws of the model

  lemma {:induction false} PutLaws(l: FieldList, name: string, vs: seq<string>, other: string)
    ensures Values(Put(l, name, vs), other) == if other == name then vs else Values(l, other)
    ensures Has(Put(l, name, vs), other) == (other == name || Has(l, other))
    ensures |Put(l, name, vs)| == if Has(l, name) then |l| else |l| + 1
  {
    HasStep(l, other);
    HasStep(l, name);
    HasStep(Put(l, name, vs), other);
    if l != [] && l[0].name != name {
      PutLaws(l[1..], name, vs, other);
      assert Put(l, name, vs)[1..] == Put(l[1..], name, vs);
    } else if l != [] {
      assert Put(l, name, vs)[1..] == l[1..];
    } else {
      assert Put(l, name, vs)[1..] == [];
    }
  }

  lemma HasStep(l: FieldList, name: string)
    ensures Has(l, name) == (l != [] && (l[0].name == name || Has(l[1..], name)))
  {
    if l != [] {
      if i :| 0 <= i < |l| && l[i].name == name {
        assert i > 0 ==> l[1..][i - 1].name == name;
      }
      if i :| 0 <= i < |l[1..]| && l[1..][i].name == name {
        assert l[i + 1].name == name;
      }
    }
  }

  lemma {:induction false} DropLaws(l: FieldList, name: string, other: string)
    ensures Values(Drop(l, name), other) == if other == name then [] else Values(l, other)
    ensures Has(Drop(l, name), other) == (other != name && Has(l, other))
  {
    HasStep(l, other);
    HasStep(Drop(l, name), other);
    if l != [] {
      DropLaws(l[1..], name, other);
      if l[0].name != name {
        assert Drop(l, name)[1..] == Drop(l[1..], name);
      }
    }
  }

  /** `Put` only touches the position of its name: every other entry stays where it was. */
  lemma {:induction false} PutAt(l: FieldList, name: string, vs: seq<string>, k: nat)
    requires k <= |l| && (k < |l| ==> l[k].name == name)
    requires forall i :: 0 <= i < k ==> l[i].name != name
    ensures Put(l, name, vs) == if k < |l| then l[k := Field(name, vs)] else l + [Field(name, vs)]
    ensures Values(l, name) == if k < |l| then l[k].values else []
  {
    if k > 0 {
      PutAt(l[1..], name, vs, k - 1);
      assert l == [l[0]] + l[1..];
    }
  }

  lemma {:induction false} DropAbsent(l: FieldList, name: string)
    requires forall i :: 0 <= i < |l| ==> l[i].name != name
    ensures Drop(l, name) == l && Values(l, name) == []
  {
    if l != [] {
      DropAbsent(l[1..], name);
    }
  }

  lemma {:induction false} DropAppend(a: FieldList, b: FieldList, name: string)
    ensures Drop(a + b, name) == Drop(a, name) + Drop(b, name)
  {
    if a == [] {
      assert a + b == b;
    } else {
      assert (a + b)[1..] == a[1..] + b;
      DropAppend(a[1..], b, name);
    }
  }

  /** Position of `name` in a well-formed list, or the length when absent. */
  function Position(l: FieldList, name: string): (k: nat)
    ensures k <= |l| && (k < |l| ==> l[k].name == name)
    ensures forall i :: 0 <= i < k ==> l[i].name != name
  {
    if l == [] || l[0].name == name then 0 else 1 + Position(l[1..], name)
  }

  lemma PutWellFormed(l: FieldList, name: string, vs: seq<string>)
    requires WellFormed(l) && vs != [] && Lower(name) == name
    ensures WellFormed(Put(l, name, vs))
  {
    PutAt(l, name, vs, Position(l, name));
  }

  lemma SkipWellFormed(l: FieldList, k: nat)
    requires WellFormed(l) && k < |l|
    ensures WellFormed(l[..k] + l[k + 1..])
  {
    var d := l[..k] + l[k + 1..];
    forall i | 0 <= i < |d| ensures d[i] == l[if i < k then i else i + 1] {
    }
  }

  lemma DropAt(l: FieldList, name: string, k: nat)
    requires WellFormed(l) && k < |l| && l[k].name == name
    ensures Drop(l, name) == l[..k] + l[k + 1..]
    ensures WellFormed(Drop(l, name))
  {
    assert l == l[..k] + ([l[k]] + l[k + 1..]);
    DropAppend(l[..k], [l[k]] + l[k + 1..], name);
    DropAbsent(l[..k], name);
    DropAbsent(l[k + 1..], name);
    SkipWellFormed(l, k);
  }

  lemma DropWellFormed(l: FieldList, name: string)
    requires WellFormed(l)
    ensures WellFormed(Drop(l, name))
    ensures !Has(l, name) ==> Drop(l, name) == l
  {
    if k :| 0 <= k < |l| && l[k].name == name {
      DropAt(l, name, k);
    } else {
      DropAbsent(l, name);
    }
  }

  lemma {:induction false} FirstOfPresent(l: FieldList, name: string)
    requires WellFormed(l)
    ensures (Values(l, name) != []) == Has(l, name) == First(l, name).Some?
  {
    HasStep(l, name);
    if l != [] && l[0].name != name {
      FirstOfPresent(l[1..], name);
    }
  }

  /** The edits a caller can make. */
  datatype Edit = Insert(name: string, value: string) | Append(name: string, value: string) | Remove(name: string) | Clear

  function ApplyEdit(l: FieldList, e: Edit): FieldList {
    match e
    case Insert(n, v) => Put(l, Lower(n), [v])
    case Append(n, v) => Add(l, Lower(n), v)
    case Remove(n) => Drop(l, Lower(n))
    case Clear => []
  }

  function ApplyEdits(l: FieldList, es: seq<Edit>): FieldList
    decreases |es|
  {
    if es == [] then l else ApplyEdits(ApplyEdit(l, es[0]), es[1..])
  }

  lemma {:induction false} EditsKeepWellFormed(l: FieldList, es: seq<Edit>)
    requires WellFormed(l)
    ensures WellFormed(ApplyEdits(l, es))
    decreases |es|
  {
    if es != [] {
      match es[0] {
        case Insert(n, v) => LowerIdempotent(n); PutWellFormed(l, Lower(n), [v]);
        case Append(n, v) => LowerIdempotent(n); PutWellFormed(l, Lower(n), Values(l, Lower(n)) + [v]);
        case Remove(n) => DropWellFormed(l, Lower(n));
        case Clear =>
      }
      EditsKeepWellFormed(ApplyEdit(l, es[0]), es[1..]);
    }
  }

  // ---------------------------------------------------------------- map beside order vector

  type Entries = map<string, seq<string>>

  /** The order vector lists exactly the keys of the map, each once. */
  ghost predicate Consistent(order: seq<string>, entries: Entries) {
    && (forall i, j :: 0 <= i < j < |order| ==> order[i] != order[j])
    && (forall i :: 0 <= i < |order| ==> order[i] in entries)
    && (forall n :: n in entries ==> n in order && entries[n] != [] && Lower(n) == n)
  }

  ghost function ModelOf(order: seq<string>, entries: Entries): (l: FieldList)
    requires Consistent(order, entries)
    ensures |l| == |order|
    ensures forall i :: 0 <= i < |l| ==> l[i].name == order[i] && l[i].values == entries[order[i]]
    ensures WellFormed(l)
  {
    seq(|order|, i requires 0 <= i < |order| && order[i] in entries => Field(order[i], entries[order[i]]))
  }

  lemma LookupEntry(order: seq<string>, entries: Entries, name: string)
    requires Consistent(order, entries)
    ensures Has(ModelOf(order, entries), name) == (name in entries)
    ensures Values(ModelOf(order, entries), name) == if name in entries then entries[name] else []
  {
    var l := ModelOf(order, entries);
    var k := Position(l, name);
    PutAt(l, name, [], k);
    if name in entries {
      var j :| 0 <= j < |order| && order[j] == name;
      assert l[j].name == name;
    } else if k < |l| {
      assert false;
    }
  }

  lemma StorePresent(order: seq<string>, entries: Entries, k: nat, vs: seq<string>)
    requires Consistent(order, entries) && vs != [] && k < |order|
    ensures Consistent(order, entries[order[k] := vs])
    ensures ModelOf(order, entries[order[k] := vs]) == ModelOf(order, entries)[k := Field(order[k], vs)]
  {
    var l, l' := ModelOf(order, entries), ModelOf(order, entries[order[k] := vs]);
    forall i | 0 <= i < |order| ensures l'[i] == l[k := Field(order[k], vs)][i] {
      assert i != k ==> order[i] != order[k];
    }
  }

  lemma StoreAbsent(order: seq<string>, entries: Entries, name: string, vs: seq<string>)
    requires Consistent(order, entries) && vs != [] && Lower(name) == name && name !in entries
    ensures Consistent(order + [name], entries[name := vs])
    ensures ModelOf(order + [name], entries[name := vs]) == ModelOf(order, entries) + [Field(name, vs)]
  {
    var order', entries' := order + [name], entries[name := vs];
    assert forall i :: 0 <= i < |order| ==> order[i] != name;
    assert forall n :: n in entries ==> n in order';
    assert Consistent(order', entries');
    var l, l' := ModelOf(order, entries), ModelOf(order', entries');
    forall i | 0 <= i < |l'| ensures l'[i] == (l + [Field(name, vs)])[i] {
      assert i < |order| ==> order'[i] == order[i];
    }
  }

  lemma StoreEntry(order: seq<string>, entries: Entries, name: string, vs: seq<string>)
    requires Consistent(order, entries) && vs != [] && Lower(name) == name
    ensures var order' := if name in entries then order else order + [name];
            && Consistent(order', entries[name := vs])
            && ModelOf(order', entries[name := vs]) == Put(ModelOf(order, entries), name, vs)
  {
    var l := ModelOf(order, entries);
    var k := Position(l, name);
    PutAt(l, name, vs, k);
    LookupEntry(order, entries, name);
    if name in entries {
      StorePresent(order, entries, k, vs);
    } else {
      assert k == |l| by { assert k < |l| ==> Has(l, name); }
      StoreAbsent(order, entries, name, vs);
    }
  }

  lemma SkipIndex(order: seq<string>, k: nat, without: seq<string>)
    requires k < |order| && without == order[..k] + order[k + 1..]
    requires forall i, j :: 0 <= i < j < |order| ==> order[i] != order[j]
    ensures forall i, j :: 0 <= i < j < |without| ==> without[i] != without[j]
    ensures forall n :: n in without <==> n in order && n != order[k]
  {
    forall n | n in order && n != order[k] ensures n in without {
      var j :| 0 <= j < |order| && order[j] == n;
      assert without[if j < k then j else j - 1] == n;
    }
    forall n | n in without ensures n in order && n != order[k] {
      var j :| 0 <= j < |without| && without[j] == n;
      assert order[if j < k then j else j + 1] == n;
    }
  }

  lemma DeleteKeepsConsistent(order: seq<string>, entries: Entries, k: nat)
    requires Consistent(order, entries) && k < |order|
    ensures Consistent(order[..k] + order[k + 1..], entries - {order[k]})
  {
    var order', entries' := order[..k] + order[k + 1..], entries - {order[k]};
    SkipIndex(order, k, order');
    forall n | n in entries' ensures n in order' && entries'[n] != [] && Lower(n) == n {
      assert n in entries;
    }
    forall i | 0 <= i < |order'| ensures order'[i] in entries' {
      assert order'[i] in order';
    }
  }

  lemma DeleteModel(order: seq<string>, entries: Entries, k: nat)
    requires Consistent(order, entries) && k < |order|
    requires Consistent(order[..k] + order[k + 1..], entries - {order[k]})
    ensures ModelOf(order[..k] + order[k + 1..], entries - {order[k]})
         == ModelOf(order, entries)[..k] + ModelOf(order, entries)[k + 1..]
  {
    var l := ModelOf(order, entries);
    var order', entries' := order[..k] + order[k + 1..], entries - {order[k]};
    var l' := ModelOf(order', entries');
    forall i | 0 <= i < |l'| ensures l'[i] == (l[..k] + l[k + 1..])[i] {
      assert order'[i] == order[if i < k then i else i + 1];
    }
  }

  lemma DeleteEntry(order: seq<string>, entries: Entries, name: string)
    requires Consistent(order, entries) && name in entries
    ensures Consistent(Retain(order, name), entries - {name})
    ensures ModelOf(Retain(order, name), entries - {name}) == Drop(ModelOf(order, entries), name)
  {
    var k :| 0 <= k < |order| && order[k] == name;
    Retained(order, name, k);
    DeleteKeepsConsistent(order, entries, k);
    DeleteModel(order, entries, k);
    var l := ModelOf(order, entries);
    assert l[k].name == name;
    DropAt(l, name, k);
  }

  /** `Vec::retain` of the names other than `name`. */
  function Retain(order: seq<string>, name: string): seq<string> {
    if order == [] then []
    else (if order[0] != name then [order[0]] else []) + Retain(order[1..], name)
  }

  lemma {:induction false} Retained(order: seq<string>, name: string, k: nat)
    requires k < |order| && order[k] == name
    requires forall i, j :: 0 <= i < j < |order| ==> order[i] != order[j]
    ensures Retain(order, name) == order[..k] + order[k + 1..]
  {
    if k == 0 {
      RetainAll(order[1..], name);
    } else {
      Retained(order[1..], name, k - 1);
      assert order[..k] == [order[0]] + order[1..][..k - 1];
    }
  }

  lemma {:induction false} RetainAll(order: seq<string>, name: string)
    requires name !in order
    ensures Retain(order, name) == order
  {
    if order != [] {
      RetainAll(order[1..], name);
    }
  }

  /** The entries in the order of the vector, skipping names the map does not know. */
  function IterFrom(order: seq<string>, entries: Entries): FieldList {
    if order == [] then []
    else (if order[0] in entries then [Field(order[0], entries[order[0]])] else []) + IterFrom(order[1..], entries)
  }

  lemma {:induction false} IterAll(order: seq<string>, entries: Entries, l: FieldList)
    requires |l| == |order|
    requires forall i :: 0 <= i < |order| ==> order[i] in entries && l[i] == Field(order[i], entries[order[i]])
    ensures IterFrom(order, entries) == l
  {
    if order != [] {
      IterAll(order[1..], entries, l[1..]);
      assert l == [l[0]] + l[1..];
    }
  }

  function NamesOf(l: FieldList): (names: seq<string>)
    ensures |names| == |l| && forall i :: 0 <= i < |l| ==> names[i] == l[i].name
  {
    seq(|l|, i requires 0 <= i < |l| => l[i].name)
  }

  function EntriesOf(l: FieldList): (entries: Entries)
    requires WellFormed(l)
    ensures forall i :: 0 <= i < |l| ==> l[i].name in entries && entries[l[i].name] == l[i].values
    ensures forall n :: n in entries ==> exists i :: 0 <= i < |l| && l[i].name == n
  {
    map i | 0 <= i < |l| :: l[i].name := l[i].values
  }

  lemma FromConsistent(l: FieldList)
    requires WellFormed(l)
    ensures Consistent(NamesOf(l), EntriesOf(l)) && ModelOf(NamesOf(l), EntriesOf(l)) == l
  {
    var order, entries := NamesOf(l), EntriesOf(l);
    forall n | n in entries ensures n in order && entries[n] != [] && Lower(n) == n {
      var i :| 0 <= i < |l| && l[i].name == n;
      assert order[i] == n;
    }
  }

  // ---------------------------------------------------------------- the class

  class Headers {
    var entries: Entries
    var order: seq<string>

    ghost predicate Valid()
      reads this
    {
      Consistent(order, entries)
    }

    ghost function Model(): (l: FieldList)
      requires Valid()
      reads this
      ensures WellFormed(l)
    {
      ModelOf(order, entries)
    }

    constructor ()
      ensures Valid() && Model() == []
    {
      entries, order := map[], [];
    }

    /** A collection with the given content, as handlers hand it over. */
    constructor From(l: FieldList)
      requires WellFormed(l)
      ensures Valid() && Model() == l
    {
      entries, order := EntriesOf(l), NamesOf(l);
      FromConsistent(l);
    }

    /** Insert a header, replacing any existing values. */
    method Insert(rawName: string, value: string)
      requires Valid()
      modifies this
      ensures Valid() && Model() == Put(old(Model()), Lower(rawName), [value])
    {
      var name := Lower(rawName);
      LowerIdempotent(rawName);
      StoreEntry(order, entries, name, [value]);
      if name !in entries {
        order := order + [name];
      }
      entries := entries[name := [value]];
    }

    /** Append a header value. */
    method Append(rawName: string, value: string)
      requires Valid()
      modifies this
      ensures Valid() && Model() == Add(old(Model()), Lower(rawName), value)
    {
      var name := Lower(rawName);
      LowerIdempotent(rawName);
      LookupEntry(order, entries, name);
      var values := if name in entries then entries[name] else [];
      StoreEntry(order, entries, name, values + [value]);
      if name !in entries {
        order := order + [name];
      }
      entries := entries[name := values + [value]];
    }

    /** Remove a header and return its values. */
    method Remove(rawName: string) returns (removed: Option<seq<string>>)
      requires Valid()
      modifies this
      ensures Valid() && Model() == Drop(old(Model()), Lower(rawName))
      ensures removed == if Has(old(Model()), Lower(rawName)) then Some(Values(old(Model()), Lower(rawName))) else None
    {
      var name := Lower(rawName);
      LookupEntry(order, entries, name);
      if name in entries {
        DeleteEntry(order, entries, name);
        removed := Some(entries[name]);
        entries := entries - {name};
        order := Retain(order, name);
      } else {
        DropWellFormed(Model(), name);
        removed := None;
      }
    }

    /** Clear all headers. */
    method Clear()
      requires Valid()
      modifies this
      ensures Valid() && Model() == []
    {
      entries, order := map[], [];
    }

    /** The first value for a header. */
    function Get(rawName: string): (value: Option<string>)
      requires Valid()
      reads this
      ensures value == First(Model(), Lower(rawName))
    {
      var name := Lower(rawName);
      LookupEntry(order, entries, name);
      if name in entries then Some(entries[name][0]) else None
    }

    /** All values for a header. */
    function GetAll(rawName: string): (values: Option<seq<string>>)
      requires Valid()
      reads this
      ensures values.Some? == Has(Model(), Lower(rawName))
      ensures values.Some? ==> values.value == Values(Model(), Lower(rawName))
    {
      var name := Lower(rawName);
      LookupEntry(order, entries, name);
      if name in entries then Some(entries[name]) else None
    }

    predicate Contains(rawName: string)
      requires Valid()
      reads this
      ensures Contains(rawName) == Has(Model(), Lower(rawName))
    {
      LookupEntry(order, entries, Lower(rawName));
      Lower(rawName) in entries
    }

    /** The entries in insertion order. */
    function Iter(): (l: FieldList)
      requires Valid()
      reads this
      ensures l == Model()
    {
      IterAll(order, entries, Model());
      IterFrom(order, entries)
    }
  }
}
