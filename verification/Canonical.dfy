/** Canonical JSON: the sorted-key printer and what accepting only canonical
    text guarantees. */
module Canonical {
  import opened Text
  import opened Json
  import opened StrictJson

  /** A decoded JSON value: Go's map[string]any, []any and scalars. */
  datatype Value =
    | Obj(m: map<string, Value>)
    | Arr(items: seq<Value>)
    | Str(s: string)
    | Num(text: string)
    | Bool(b: bool)
    | Null

  // ----- The canonical tree of a value: members in sorted key order -----

  function ToTree(v: Value): Tree
    decreases v
  {
    match v
    case Obj(m) => SortedKeysMembers(m.Keys); JObj(ToMembers(SortedKeys(m.Keys), v))
    case Arr(items) => JArr(ToItems(v, 0))
    case Str(s) => JStr(s)
    case Num(text) => JNum(text)
    case Bool(b) => JBool(b)
    case Null => JNull
  }

  lemma SortedKeysMembers(keys: set<string>)
    ensures forall k :: k in SortedKeys(keys) <==> k in keys
    ensures Distinct(SortedKeys(keys))
  {
    SetOrderIsDistinct(SortedKeys(keys), keys);
  }

  function ToMembers(keys: seq<string>, v: Value): Members
    requires v.Obj? && forall k :: k in keys ==> k in v.m
    decreases v, |keys|
  {
    if keys == [] then MNil
    else MCons(keys[0], ToTree(v.m[keys[0]]), ToMembers(keys[1..], v))
  }

  function ToItems(v: Value, i: nat): Items
    requires v.Arr? && i <= |v.items|
    decreases v, |v.items| - i
  {
    if i == |v.items| then INil else ICons(ToTree(v.items[i]), ToItems(v, i + 1))
  }

  /** The canonical text of a value. */
  function CanonicalText(v: Value): seq<Lex>
  {
    Tokens(ToTree(v))
  }

  // ----- Decoding a tree: a repeated key keeps its last value -----

  function FromTree(t: Tree): Value
  {
    match t
    case JObj(members) => Obj(FromMembers(members, map[]))
    case JArr(items) => Arr(FromItems(items))
    case JStr(s) => Str(s)
    case JNum(text) => Num(text)
    case JBool(b) => Bool(b)
    case JNull => Null
  }

  function FromMembers(members: Members, m: map<string, Value>): map<string, Value>
  {
    match members
    case MNil => m
    case MCons(k, v, rest) => FromMembers(rest, m[k := FromTree(v)])
  }

  function FromItems(items: Items): seq<Value>
  {
    match items
    case INil => []
    case ICons(head, tail) => [FromTree(head)] + FromItems(tail)
  }

  /** Decoding a whole text into a generic value. */
  function Decode(data: seq<Lex>): Option<Value>
  {
    var r := ReadValue(data);
    if r.Got? && r.rest == [] then Some(FromTree(r.value)) else None
  }

  // ----- The printer, as the source runs it -----

  class Buffer {
    var toks: seq<Lex>

    constructor ()
      ensures toks == []
    {
      toks := [];
    }

    method Write(more: seq<Lex>)
      modifies this
      ensures toks == old(toks) + more
    {
      toks := toks + more;
    }
  }

  /** Collects the keys in whatever order the map yields them, and sorts. */
  method CollectAndSortKeys(m: map<string, Value>) returns (keys: seq<string>)
    ensures keys == SortedKeys(m.Keys)
  {
    keys := [];
    var left := m.Keys;
    while left != {}
      invariant left <= m.Keys
      invariant multiset(keys) == multiset(m.Keys - left)
      decreases left
    {
      var k :| k in left;
      assert m.Keys - (left - {k}) == (m.Keys - left) + {k};
      keys := keys + [k];
      left := left - {k};
    }
    assert m.Keys - left == m.Keys;
    ghost var collected := keys;
    keys := Sort(keys, StrAtMost);
    StrOrderIsTotal();
    SortSorts(collected, StrAtMost);
    SortedKeysUnique(keys, m.Keys);
  }

  /** The canonical text of an object still to be written from member `i` on. */
  ghost function MembersFrom(keys: seq<string>, i: nat, v: Value): seq<Lex>
    requires i <= |keys| && v.Obj? && forall k :: k in keys ==> k in v.m
  {
    var rest := ToMembers(keys[i..], v);
    if i == 0 then MembersTokens(rest) else RestTokens(rest)
  }

  ghost function ItemsFrom(v: Value, i: nat): seq<Lex>
    requires v.Arr? && i <= |v.items|
  {
    if i == 0 then ItemsTokens(ToItems(v, 0)) else TailTokens(ToItems(v, i))
  }

  ghost function ItemText(v: Value, i: nat): seq<Lex>
    requires v.Arr? && i < |v.items|
  {
    (if i > 0 then [Comma] else []) + CanonicalText(v.items[i])
  }

  ghost function MemberText(keys: seq<string>, i: nat, v: Value): seq<Lex>
    requires i < |keys| && v.Obj? && keys[i] in v.m
  {
    (if i > 0 then [Comma] else []) + [StrTok(keys[i])] + [Colon] + CanonicalText(v.m[keys[i]])
  }

  lemma MembersStep(keys: seq<string>, i: nat, v: Value)
    requires i < |keys| && v.Obj? && forall k :: k in keys ==> k in v.m
    ensures MembersFrom(keys, i, v) == MemberText(keys, i, v) + MembersFrom(keys, i + 1, v)
  {
    ToMembersAt(keys, i, v);
  }

  lemma ToMembersAt(keys: seq<string>, i: nat, v: Value)
    requires i < |keys| && v.Obj? && forall k :: k in keys ==> k in v.m
    ensures ToMembers(keys[i..], v) == MCons(keys[i], ToTree(v.m[keys[i]]), ToMembers(keys[i+1..], v))
  {
    assert keys[i..][1..] == keys[i+1..] && keys[i..][0] == keys[i];
  }

  lemma MembersEnd(keys: seq<string>, v: Value)
    requires v.Obj? && forall k :: k in keys ==> k in v.m
    ensures MembersFrom(keys, |keys|, v) == [RBrace]
  {
    assert keys[|keys|..] == [];
  }

  lemma ObjectText(keys: seq<string>, v: Value, before: seq<Lex>)
    requires v.Obj? && keys == SortedKeys(v.m.Keys)
    ensures forall k :: k in keys ==> k in v.m
    ensures before + [LBrace] + MembersFrom(keys, 0, v) == before + CanonicalText(v)
  {
    SortedKeysMembers(v.m.Keys);
    assert keys[0..] == keys;
    assert ToTree(v) == JObj(ToMembers(keys, v));
    assert CanonicalText(v) == [LBrace] + MembersFrom(keys, 0, v);
  }

  lemma ItemsStep(v: Value, i: nat)
    requires v.Arr? && i < |v.items|
    ensures ItemsFrom(v, i) == ItemText(v, i) + ItemsFrom(v, i + 1)
  {
  }

  lemma ArrayText(v: Value, before: seq<Lex>)
    requires v.Arr?
    ensures before + [LBrack] + ItemsFrom(v, 0) == before + CanonicalText(v)
    ensures ItemsFrom(v, |v.items|) == [RBrack]
  {
    assert CanonicalText(v) == [LBrack] + ItemsFrom(v, 0);
  }

  /** Appends the canonical text of `v`, whatever order its maps iterate in. */
  method EncodeCanonical(buf: Buffer, v: Value)
    modifies buf
    ensures buf.toks == old(buf.toks) + CanonicalText(v)
    decreases v, 1
  {
    match v {
      case Obj(_) => EncodeObject(buf, v);
      case Arr(_) => EncodeArray(buf, v);
      case Str(s) => buf.Write([StrTok(s)]);
      case Num(text) => buf.Write([NumTok(text)]);
      case Bool(b) => buf.Write([if b then TrueTok else FalseTok]);
      case Null => buf.Write([NullTok]);
    }
  }

  method EncodeObject(buf: Buffer, v: Value)
    requires v.Obj?
    modifies buf
    ensures buf.toks == old(buf.toks) + CanonicalText(v)
    decreases v, 0, 2
  {
    var keys := CollectAndSortKeys(v.m);
    ObjectText(keys, v, buf.toks);
    buf.Write([LBrace]);
    EncodeMembers(buf, keys, v);
    buf.Write([RBrace]);
  }

  method EncodeMembers(buf: Buffer, keys: seq<string>, v: Value)
    requires v.Obj? && forall k :: k in keys ==> k in v.m
    modifies buf
    ensures buf.toks + [RBrace] == old(buf.toks) + MembersFrom(keys, 0, v)
    decreases v, 0, 1
  {
    ghost var goal := buf.toks + MembersFrom(keys, 0, v);
    for i := 0 to |keys|
      invariant goal == buf.toks + MembersFrom(keys, i, v)
    {
      MembersStep(keys, i, v);
      EncodeMember(buf, keys, i, v);
    }
    MembersEnd(keys, v);
  }

  method EncodeMember(buf: Buffer, keys: seq<string>, i: nat, v: Value)
    requires i < |keys| && v.Obj? && forall k :: k in keys ==> k in v.m
    modifies buf
    ensures buf.toks == old(buf.toks) + MemberText(keys, i, v)
    decreases v, 0, 0
  {
    if i > 0 { buf.Write([Comma]); }
    buf.Write([StrTok(keys[i])]);
    buf.Write([Colon]);
    EncodeCanonical(buf, v.m[keys[i]]);
  }

  method EncodeArray(buf: Buffer, v: Value)
    requires v.Arr?
    modifies buf
    ensures buf.toks == old(buf.toks) + CanonicalText(v)
    decreases v, 0, 1
  {
    ghost var goal := buf.toks + CanonicalText(v);
    ArrayText(v, buf.toks);
    buf.Write([LBrack]);
    for i := 0 to |v.items|
      invariant goal == buf.toks + ItemsFrom(v, i)
    {
      ItemsStep(v, i);
      EncodeItem(buf, v, i);
    }
    buf.Write([RBrack]);
  }

  method EncodeItem(buf: Buffer, v: Value, i: nat)
    requires v.Arr? && i < |v.items|
    modifies buf
    ensures buf.toks == old(buf.toks) + ItemText(v, i)
    decreases v, 0, 0
  {
    if i > 0 { buf.Write([Comma]); }
    EncodeCanonical(buf, v.items[i]);
  }

  // ----- Round trip -----

  lemma {:induction false} FromToTree(v: Value)
    ensures FromTree(ToTree(v)) == v
    decreases v, 2
  {
    match v
    case Obj(_) => FromToObject(v);
    case Arr(_) => FromToItems(v, 0);
    case _ =>
  }

  lemma {:induction false} FromToObject(v: Value)
    requires v.Obj?
    ensures FromTree(ToTree(v)) == v
    decreases v, 1
  {
    var keys := SortedKeys(v.m.Keys);
    SortedKeysMembers(v.m.Keys);
    FromToMembers(keys, v, map[]);
    RestrictAll(v.m, keys);
    assert ToTree(v) == JObj(ToMembers(keys, v));
  }

  lemma RestrictAll<T>(m: map<string, T>, keys: seq<string>)
    requires forall k :: k in keys <==> k in m
    ensures map[] + Restrict(m, keys) == m
  {
  }

  function Restrict<T>(m: map<string, T>, keys: seq<string>): map<string, T>
  {
    map k | k in keys && k in m :: m[k]
  }

  lemma RestrictStep<T>(m: map<string, T>, keys: seq<string>, acc: map<string, T>)
    requires forall k :: k in keys ==> k in m
    ensures keys == [] ==> acc + Restrict(m, keys) == acc
    ensures keys != [] ==> acc[keys[0] := m[keys[0]]] + Restrict(m, keys[1..]) == acc + Restrict(m, keys)
  {
    if keys != [] { assert keys == [keys[0]] + keys[1..]; }
  }

  lemma {:induction false} FromToMembers(keys: seq<string>, v: Value, acc: map<string, Value>)
    requires v.Obj? && forall k :: k in keys ==> k in v.m
    ensures FromMembers(ToMembers(keys, v), acc) == acc + Restrict(v.m, keys)
    decreases v, 0, |keys|
  {
    if keys != [] {
      var k := keys[0];
      FromToTree(v.m[k]);
      FromToMembers(keys[1..], v, acc[k := v.m[k]]);
    }
    RestrictStep(v.m, keys, acc);
  }

  lemma {:induction false} FromToItems(v: Value, i: nat)
    requires v.Arr? && i <= |v.items|
    ensures FromItems(ToItems(v, i)) == v.items[i..]
    decreases v, 0, |v.items| - i
  {
    if i < |v.items| {
      FromToTree(v.items[i]);
      FromToItems(v, i + 1);
    }
  }

  /** Decoding canonical text gives the value back. */
  lemma CanonicalRoundTrip(v: Value)
    ensures Decode(CanonicalText(v)) == Some(v)
  {
    ReadTokens(ToTree(v), []);
    assert CanonicalText(v) + [] == CanonicalText(v);
    FromToTree(v);
  }

  /** Different values have different canonical text, even as prefixes. */
  lemma CanonicalInjective(a: Value, restA: seq<Lex>, b: Value, restB: seq<Lex>)
    requires CanonicalText(a) + restA == CanonicalText(b) + restB
    ensures a == b && restA == restB
  {
    TokensInjective(ToTree(a), restA, ToTree(b), restB);
    FromToTree(a);
    FromToTree(b);
  }

  // ----- Canonical text is strict, and exactly the sorted documents -----

  /** Every object lists its keys in strictly increasing order. */
  ghost predicate SortedTree(t: Tree)
  {
    match t
    case JObj(members) => SortedMembers(members)
    case JArr(items) => SortedItems(items)
    case _ => true
  }

  ghost predicate SortedItems(items: Items)
  {
    match items
    case INil => true
    case ICons(head, tail) => SortedTree(head) && SortedItems(tail)
  }

  ghost predicate SortedMembers(members: Members)
  {
    match members
    case MNil => true
    case MCons(k, v, rest) => SortedTree(v) && (rest.MCons? ==> StrLess(k, rest.key)) && SortedMembers(rest)
  }

  function Keys(members: Members): seq<string>
  {
    match members
    case MNil => []
    case MCons(k, _, rest) => [k] + Keys(rest)
  }

  ghost predicate StrictlySorted(keys: seq<string>)
  {
    forall i, j :: 0 <= i < j < |keys| ==> StrLess(keys[i], keys[j])
  }

  lemma {:induction false} SortedMembersKeys(members: Members)
    requires SortedMembers(members)
    ensures StrictlySorted(Keys(members))
  {
    if members.MCons? {
      var keys := Keys(members.rest);
      SortedMembersKeys(members.rest);
      forall j | 0 <= j < |keys| ensures StrLess(members.key, keys[j]) {
        if j > 0 { StrLessTransitive(members.key, keys[0], keys[j]); }
      }
    }
  }

  lemma {:induction false} SortedIsUnique(t: Tree)
    requires SortedTree(t)
    ensures UniqueKeys(t)
  {
    match t
    case JObj(members) => SortedMembersUnique(members, {});
    case JArr(items) => SortedItemsUnique(items);
    case _ =>
  }

  lemma {:induction false} SortedItemsUnique(items: Items)
    requires SortedItems(items)
    ensures UniqueItems(items)
  {
    if items.ICons? {
      SortedIsUnique(items.head);
      SortedItemsUnique(items.tail);
    }
  }

  lemma {:induction false} SortedMembersUnique(members: Members, seen: set<string>)
    requires SortedMembers(members)
    requires forall s, k :: s in seen && k in Keys(members) ==> StrLess(s, k)
    ensures UniqueMembers(members, seen)
  {
    if members.MCons? {
      var k := members.key;
      SortedMembersKeys(members);
      StrLessTrichotomy(k, k);
      assert k in Keys(members) && k !in seen;
      SortedIsUnique(members.value);
      forall x | x in Keys(members.rest) ensures StrLess(k, x) {
        var i :| 0 <= i < |Keys(members.rest)| && Keys(members.rest)[i] == x;
        assert Keys(members)[0] == k && Keys(members)[i+1] == x;
      }
      SortedMembersUnique(members.rest, seen + {k});
    }
  }

  lemma {:induction false} ToTreeSorted(v: Value)
    ensures SortedTree(ToTree(v))
    decreases v
  {
    match v
    case Obj(m) =>
      var keys := SortedKeys(m.Keys);
      SortedKeysMembers(m.Keys);
      SortedKeysAreSorted(m.Keys);
      ToMembersSorted(keys, v);
    case Arr(items) =>
      ToItemsSorted(v, 0);
    case _ =>
  }

  lemma {:induction false} ToMembersSorted(keys: seq<string>, v: Value)
    requires v.Obj? && forall k :: k in keys ==> k in v.m
    requires SortedBy(StrAtMost, keys) && Distinct(keys)
    ensures SortedMembers(ToMembers(keys, v))
    decreases v, |keys|
  {
    if keys != [] {
      ToTreeSorted(v.m[keys[0]]);
      ToMembersSorted(keys[1..], v);
    }
  }

  lemma {:induction false} ToItemsSorted(v: Value, i: nat)
    requires v.Arr? && i <= |v.items|
    ensures SortedItems(ToItems(v, i))
    decreases v, |v.items| - i
  {
    if i < |v.items| {
      ToTreeSorted(v.items[i]);
      ToItemsSorted(v, i + 1);
    }
  }

  lemma {:induction false} ToFromTree(t: Tree)
    requires SortedTree(t)
    ensures ToTree(FromTree(t)) == t
    decreases t
  {
    match t
    case JObj(members) =>
      var m := FromMembers(members, map[]);
      FromMembersKeys(members, map[]);
      SortedMembersKeys(members);
      KeysAreSortedKeys(members, m.Keys);
      FromMembersLookup(members, map[]);
      ToFromMembers(members, Obj(m));
    case JArr(items) =>
      ToFromItems(items, FromTree(t), 0);
    case _ =>
  }

  lemma {:induction false} FromMembersKeys(members: Members, acc: map<string, Value>)
    ensures FromMembers(members, acc).Keys == acc.Keys + set k | k in Keys(members)
  {
    if members.MCons? {
      FromMembersKeys(members.rest, acc[members.key := FromTree(members.value)]);
    }
  }

  lemma KeysAreSortedKeys(members: Members, keys: set<string>)
    requires StrictlySorted(Keys(members)) && keys == set k | k in Keys(members)
    ensures SortedKeys(keys) == Keys(members)
  {
    var ks := Keys(members);
    forall i, j | 0 <= i < j < |ks| ensures ks[i] != ks[j] {
      StrLessTrichotomy(ks[i], ks[j]);
    }
    DistinctMultiset(ks);
    SortedKeysUnique(ks, keys);
  }

  lemma {:induction false} DistinctMultiset(ks: seq<string>)
    requires Distinct(ks)
    ensures multiset(ks) == multiset(set k | k in ks)
  {
    if ks != [] {
      DistinctMultiset(ks[1..]);
      assert ks == [ks[0]] + ks[1..];
      assert ks[0] !in ks[1..];
      assert (set k | k in ks) == {ks[0]} + set k | k in ks[1..];
    }
  }

  /** The value stored for each key, when keys do not repeat. */
  ghost predicate Stored(members: Members, m: map<string, Value>)
  {
    members.MCons? ==>
      && members.key in m && m[members.key] == FromTree(members.value)
      && Stored(members.rest, m)
  }

  lemma {:induction false} FromMembersLookup(members: Members, acc: map<string, Value>)
    requires StrictlySorted(Keys(members))
    ensures Stored(members, FromMembers(members, acc))
    ensures forall k :: k in acc && k !in Keys(members) ==>
              k in FromMembers(members, acc) && FromMembers(members, acc)[k] == acc[k]
  {
    if members.MCons? {
      var ks := Keys(members);
      assert ks[1..] == Keys(members.rest);
      FromMembersLookup(members.rest, acc[members.key := FromTree(members.value)]);
      assert members.key !in Keys(members.rest) by {
        forall j | 1 <= j < |ks| ensures ks[j] != ks[0] { StrLessTrichotomy(ks[0], ks[j]); }
      }
    }
  }

  lemma {:induction false} ToFromMembers(members: Members, v: Value)
    requires SortedMembers(members) && v.Obj? && Stored(members, v.m)
    ensures forall k :: k in Keys(members) ==> k in v.m
    ensures ToMembers(Keys(members), v) == members
    decreases members
  {
    if members.MCons? {
      ToFromTree(members.value);
      ToFromMembers(members.rest, v);
      assert Keys(members)[1..] == Keys(members.rest);
    }
  }

  lemma {:induction false} ToFromItems(items: Items, v: Value, i: nat)
    requires SortedItems(items) && v.Arr? && i <= |v.items| && v.items[i..] == FromItems(items)
    ensures ToItems(v, i) == items
    decreases items
  {
    if items.ICons? {
      ToFromTree(items.head);
      assert v.items[i] == v.items[i..][0] && v.items[i+1..] == v.items[i..][1..];
      ToFromItems(items.tail, v, i + 1);
    }
  }

  /** Canonical text is exactly the text of a tree whose keys are strictly
      increasing in every object. */
  lemma CanonicalTextCharacterized(data: seq<Lex>)
    ensures (exists v :: data == CanonicalText(v)) <==> (exists t :: SortedTree(t) && data == Tokens(t))
  {
    if v :| data == CanonicalText(v) {
      ToTreeSorted(v);
      assert SortedTree(ToTree(v)) && data == Tokens(ToTree(v));
    }
    if t :| SortedTree(t) && data == Tokens(t) {
      ToFromTree(t);
      assert data == CanonicalText(FromTree(t));
    }
  }

  /** Canonical text is always one value with no repeated key and nothing after. */
  lemma CanonicalIsStrict(v: Value)
    ensures StrictDocument(CanonicalText(v))
  {
    ToTreeSorted(v);
    SortedIsUnique(ToTree(v));
  }

  // ----- "Re-encode and compare" acceptance -----

  /** Decode with any decoder at all, marshal the result, and accept only when
      the canonical form reproduces the bytes. */
  ghost predicate AcceptedAs<P(!new)>(decode: seq<Lex> -> Option<P>, marshal: P -> Value, data: seq<Lex>, p: P)
  {
    decode(data) == Some(p) && CanonicalText(marshal(p)) == data
  }

  /** However lenient the decoder (duplicate keys, trailing data), accepted text
      is a strict document and determines the marshalled value. */
  lemma AcceptanceIsStrict<P(!new)>(decode: seq<Lex> -> Option<P>, marshal: P -> Value, data: seq<Lex>, p: P)
    requires AcceptedAs(decode, marshal, data, p)
    ensures StrictDocument(data) && Decode(data) == Some(marshal(p))
  {
    CanonicalIsStrict(marshal(p));
    CanonicalRoundTrip(marshal(p));
  }

  /** At most one text is accepted per marshalled payload, even under two
      different decoders; texts accepted for different payloads differ. */
  lemma AcceptanceIsUnique<P(!new)>(decodeA: seq<Lex> -> Option<P>, decodeB: seq<Lex> -> Option<P>, marshal: P -> Value,
                                    a: seq<Lex>, b: seq<Lex>, p: P, q: P)
    requires AcceptedAs(decodeA, marshal, a, p) && AcceptedAs(decodeB, marshal, b, q)
    ensures a == b <==> marshal(p) == marshal(q)
  {
    CanonicalRoundTrip(marshal(p));
    CanonicalRoundTrip(marshal(q));
  }
}
