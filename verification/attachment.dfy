/** Attachments: a wire map `{type: "photo", photo: {...}}` decoded into a
    type code and a flat property map, with property access and the list and
    hash conversions. An attachment is a value: copies never share updates. */
module Attachments {
  import opened Variants

  /** The type names, in the order that gives each its code. */
  const Types: seq<string> :=
    ["photo", "posted_photo", "video", "audio", "doc", "graffiti", "link", "note", "app", "poll", "page"]

  /** An attachment type: the index of its name in Types, or -1 (Other) for
      a name not in the table. */
  type TypeCode = t: int | -1 <= t < 11

  const Other: TypeCode := -1

  /** Position of the first occurrence of `x` in `s` at or after `from`,
      -1 when there is none. */
  function IndexOf(s: seq<string>, x: string, from: nat): int
    decreases |s| - from
  {
    if from >= |s| then -1
    else if s[from] == x then from
    else IndexOf(s, x, from + 1)
  }

  /** IndexOf finds the first occurrence at or after `from`, and -1 means
      there is none. */
  lemma {:induction false} IndexOfFindsFirst(s: seq<string>, x: string, from: nat)
    ensures IndexOf(s, x, from) == -1 || from <= IndexOf(s, x, from) < |s|
    ensures IndexOf(s, x, from) == -1 <==> forall j :: from <= j < |s| ==> s[j] != x
    ensures IndexOf(s, x, from) != -1 ==>
      s[IndexOf(s, x, from)] == x && forall j :: from <= j < IndexOf(s, x, from) ==> s[j] != x
    decreases |s| - from
  {
    if from < |s| && s[from] != x {
      IndexOfFindsFirst(s, x, from + 1);
    }
  }

  /** The type code of a type name: its position in Types, or Other. It
      inverts the table: a name in the table gets the code at which the
      table holds it, any other name gets Other. */
  function GetType(name: string): (t: TypeCode)
    ensures t == Other <==> name !in Types
    ensures t != Other ==> Types[t] == name
  {
    IndexOfFindsFirst(Types, name, 0);
    IndexOf(Types, name, 0)
  }

  /** Each name in the table maps to its own position: "photo" to 0 up to
      "page" to 10. */
  lemma GetTypeOfTable(i: int)
    requires 0 <= i < |Types|
    ensures GetType(Types[i]) == i
  {
  }

  /** Every type name starts with a lower-case letter. */
  lemma NameStartsWithLetter(i: int)
    requires 0 <= i < |Types|
    ensures |Types[i]| > 0 && 'a' <= Types[i][0] <= 'z'
  {
  }

  /** A type tag that is an integer never names a table entry: its decimal
      form starts with a digit or a minus sign, every name with a letter. */
  lemma IntegerTagIsOther(n: int)
    ensures GetType(ToString(Int(n))) == Other
  {
    var s := Decimal(n);
    forall i | 0 <= i < |Types|
      ensures Types[i] != s
    {
      NameStartsWithLetter(i);
    }
  }

  /** The type code and the flat property map of one attachment. */
  datatype Attachment = Attachment(kind: TypeCode, data: VariantMap)

  /** The value of property `name`, or `def` when the attachment has none. */
  function Property(a: Attachment, name: string, def: Variant): (v: Variant)
    ensures name in a.data ==> v == a.data[name]
    ensures name !in a.data ==> v == def
  {
    Value(a.data, name, def)
  }

  /** A default attachment: type Other and no properties at all. */
  function NewAttachment(): (a: Attachment)
    ensures a.kind == Other
    ensures forall name, def :: Property(a, name, def) == def
  {
    Attachment(Other, map[])
  }

  /** The type name a wire map announces under "type". */
  function TypeName(wire: VariantMap): string {
    ToString(Value(wire, "type", Null))
  }

  /** The nested map a wire map stores under its type name. */
  function Nested(wire: VariantMap): VariantMap {
    ToMap(Value(wire, TypeName(wire), Null))
  }

  /** The attachment decoded from a wire map: the nested map lifted to the
      top level, with "type" holding the type code. */
  function Decoded(wire: VariantMap): (a: Attachment)
    ensures a.kind == GetType(TypeName(wire))
    ensures a.data.Keys == Nested(wire).Keys + {"type"}
    ensures "type" in a.data && a.data["type"] == Int(a.kind)
    ensures forall k :: k in Nested(wire) && k != "type" ==> k in a.data && a.data[k] == Nested(wire)[k]
  {
    var kind := GetType(TypeName(wire));
    Attachment(kind, Nested(wire)["type" := Int(kind)])
  }

  /** Rebuilds `a` from a wire map: the old properties are dropped, the
      nested map's entries are copied one by one, then "type" is set to the
      type code. */
  method SetData(a: Attachment, wire: VariantMap) returns (r: Attachment)
    ensures r == Decoded(wire)
  {
    var data: VariantMap := map[];
    var name := ToString(Value(wire, "type", Null));
    var nested := ToMap(Value(wire, name, Null));
    var pending := nested.Keys;
    while pending != {}
      invariant pending <= nested.Keys
      invariant data == map k | k in nested.Keys - pending :: nested[k]
      decreases pending
    {
      var k :| k in pending;
      data := data[k := nested[k]];
      pending := pending - {k};
    }
    var kind := GetType(name);
    data := data["type" := Int(kind)];
    r := Attachment(kind, data);
  }

  /** Sets one property and leaves every other property and the type code
      as they were. */
  function SetProperty(a: Attachment, name: string, value: Variant): (r: Attachment)
    ensures r.kind == a.kind
    ensures forall def :: Property(r, name, def) == value
    ensures forall other, def :: other != name ==> Property(r, other, def) == Property(a, other, def)
  {
    a.(data := a.data[name := value])
  }

  /** A new attachment decoded from the map a value holds. */
  method FromData(data: Variant) returns (a: Attachment)
    ensures a == Decoded(ToMap(data))
  {
    a := SetData(NewAttachment(), ToMap(data));
  }

  /** Decodes each element of a list, in order. */
  method FromVariantList(list: seq<Variant>) returns (attachments: seq<Attachment>)
    ensures |attachments| == |list|
    ensures forall i :: 0 <= i < |list| ==> attachments[i] == Decoded(ToMap(list[i]))
  {
    attachments := [];
    for i := 0 to |list|
      invariant |attachments| == i
      invariant forall j :: 0 <= j < i ==> attachments[j] == Decoded(ToMap(list[j]))
    {
      var attachment := FromData(Map(ToMap(list[i])));
      attachments := attachments + [attachment];
    }
  }

  /** The property maps of a list of attachments, in order. */
  method ToVariantList(list: seq<Attachment>) returns (variants: seq<Variant>)
    ensures |variants| == |list|
    ensures forall i :: 0 <= i < |list| ==> variants[i] == Map(list[i].data)
  {
    variants := [];
    for i := 0 to |list|
      invariant |variants| == i
      invariant forall j :: 0 <= j < i ==> variants[j] == Map(list[j].data)
    {
      variants := variants + [Map(list[i].data)];
    }
  }

  /** The attachments of `list` whose type code is `t`, as a multiset. */
  function OfKind(list: seq<Attachment>, t: TypeCode): (m: multiset<Attachment>)
    ensures forall a :: m[a] == if a.kind == t then multiset(list)[a] else 0
    ensures forall a :: a in m <==> a in list && a.kind == t
    decreases |list|
  {
    if list == [] then multiset{}
    else
      var last := list[|list| - 1];
      var rest := OfKind(list[..|list| - 1], t);
      assert list == list[..|list| - 1] + [last];
      if last.kind == t then rest + multiset{last} else rest
  }

  /** The type codes that occur in `list`. */
  function Kinds(list: seq<Attachment>): set<TypeCode> {
    set a | a in list :: a.kind
  }

  /** Appending one attachment adds it to its own type's group only. */
  lemma OfKindAppend(list: seq<Attachment>, a: Attachment, t: TypeCode)
    ensures OfKind(list + [a], t) == if a.kind == t then OfKind(list, t) + multiset{a} else OfKind(list, t)
  {
    assert (list + [a])[..|list|] == list;
  }

  /** A type code that no attachment of the list has gets an empty group. */
  lemma {:induction false} OfKindAbsent(list: seq<Attachment>, t: TypeCode)
    requires t !in Kinds(list)
    ensures OfKind(list, t) == multiset{}
    decreases |list|
  {
    if list != [] {
      var init := list[..|list| - 1];
      assert Kinds(init) <= Kinds(list);
      OfKindAbsent(init, t);
    }
  }

  /** Appending one attachment adds its type code to the codes present. */
  lemma KindsAppend(list: seq<Attachment>, a: Attachment)
    ensures Kinds(list + [a]) == Kinds(list) + {a.kind}
  {
    assert forall b :: b in list + [a] <==> b in list || b == a;
  }

  /** A hash from type code to the attachments of that type, any number of
      them per code. */
  type Hash = map<TypeCode, multiset<Attachment>>

  /** `hash` groups exactly the attachments of `list` by type code. */
  ghost predicate GroupsOf(hash: Hash, list: seq<Attachment>) {
    && hash.Keys == Kinds(list)
    && forall t :: t in hash ==> hash[t] == OfKind(list, t)
  }

  /** Adds `a` under its type code, beside any attachments already there;
      every other code keeps its group. */
  function Insert(hash: Hash, a: Attachment): (r: Hash)
    ensures r.Keys == hash.Keys + {a.kind}
    ensures r[a.kind] == (if a.kind in hash then hash[a.kind] else multiset{}) + multiset{a}
    ensures forall t :: t in hash && t != a.kind ==> r[t] == hash[t]
  {
    if a.kind in hash then hash[a.kind := hash[a.kind] + multiset{a}]
    else hash[a.kind := multiset{a}]
  }

  /** Inserting the next attachment of a list extends the grouping to it. */
  lemma InsertExtendsGroups(hash: Hash, list: seq<Attachment>, a: Attachment)
    requires GroupsOf(hash, list)
    ensures GroupsOf(Insert(hash, a), list + [a])
  {
    var after := Insert(hash, a);
    assert after.Keys == Kinds(list + [a]) by {
      KindsAppend(list, a);
    }
    forall t | t in after
      ensures after[t] == OfKind(list + [a], t)
    {
      OfKindAppend(list, a, t);
      if t == a.kind && a.kind !in hash {
        OfKindAbsent(list, a.kind);
      }
    }
  }

  /** Groups the attachments of a list by type code. */
  method ToHash(list: seq<Attachment>) returns (hash: Hash)
    ensures hash.Keys == Kinds(list)
    ensures forall t :: t in hash ==> hash[t] == OfKind(list, t)
  {
    hash := map[];
    for i := 0 to |list|
      invariant GroupsOf(hash, list[..i])
    {
      assert list[..i + 1] == list[..i] + [list[i]];
      InsertExtendsGroups(hash, list[..i], list[i]);
      hash := Insert(hash, list[i]);
    }
    assert list[..|list|] == list;
  }
}
