/** JSON text as a sequence of lexical tokens, JSON values as trees, and the
    grammar of RFC 8259 that connects the two. */
module Json {

  /** Lexical tokens. `Bad` stands for bytes that do not lex. */
  datatype Lex =
    | LBrace | RBrace | LBrack | RBrack | Comma | Colon
    | StrTok(s: string) | NumTok(text: string) | TrueTok | FalseTok | NullTok
    | Bad

  /** A JSON value; an object is the list of its members in textual order. */
  datatype Tree =
    | JStr(s: string)
    | JNum(text: string)
    | JBool(b: bool)
    | JNull
    | JArr(items: Items)
    | JObj(members: Members)

  datatype Items = INil | ICons(head: Tree, tail: Items)

  datatype Members = MNil | MCons(key: string, value: Tree, rest: Members)

  // ----- The grammar, as the tokens of a tree -----

  function Tokens(j: Tree): (r: seq<Lex>)
    ensures r != [] && r[0] !in {RBrace, RBrack, Comma, Colon, Bad}
  {
    match j
    case JStr(s) => [StrTok(s)]
    case JNum(text) => [NumTok(text)]
    case JBool(b) => [if b then TrueTok else FalseTok]
    case JNull => [NullTok]
    case JArr(items) => [LBrack] + ItemsTokens(items)
    case JObj(members) => [LBrace] + MembersTokens(members)
  }

  /** The items of an array up to the closing bracket. */
  function ItemsTokens(items: Items): (r: seq<Lex>)
    ensures r != []
  {
    match items
    case INil => [RBrack]
    case ICons(head, tail) => Tokens(head) + TailTokens(tail)
  }

  /** The remaining items of an array, each after a comma, and the bracket. */
  function TailTokens(items: Items): (r: seq<Lex>)
    ensures r != []
  {
    match items
    case INil => [RBrack]
    case ICons(head, tail) => [Comma] + Tokens(head) + TailTokens(tail)
  }

  function MembersTokens(members: Members): (r: seq<Lex>)
    ensures r != []
  {
    match members
    case MNil => [RBrace]
    case MCons(k, v, rest) => [StrTok(k), Colon] + Tokens(v) + RestTokens(rest)
  }

  function RestTokens(members: Members): (r: seq<Lex>)
    ensures r != []
  {
    match members
    case MNil => [RBrace]
    case MCons(k, v, rest) => [Comma, StrTok(k), Colon] + Tokens(v) + RestTokens(rest)
  }

  // ----- No object at any depth repeats a key -----

  predicate UniqueKeys(j: Tree)
  {
    match j
    case JArr(items) => UniqueItems(items)
    case JObj(members) => UniqueMembers(members, {})
    case _ => true
  }

  predicate UniqueItems(items: Items)
  {
    match items
    case INil => true
    case ICons(head, tail) => UniqueKeys(head) && UniqueItems(tail)
  }

  /** No key occurs twice, nor among the keys `seen` before. */
  predicate UniqueMembers(members: Members, seen: set<string>)
  {
    match members
    case MNil => true
    case MCons(k, v, rest) => k !in seen && UniqueKeys(v) && UniqueMembers(rest, seen + {k})
  }

  // ----- A reader for the grammar -----

  datatype Read<+T> = Fail | Got(value: T, rest: seq<Lex>)

  function ReadValue(s: seq<Lex>): (r: Read<Tree>)
    ensures r.Got? ==> |r.rest| < |s|
    decreases |s|, 0
  {
    if s == [] then Fail
    else
      match s[0]
      case StrTok(t) => Got(JStr(t), s[1..])
      case NumTok(t) => Got(JNum(t), s[1..])
      case TrueTok => Got(JBool(true), s[1..])
      case FalseTok => Got(JBool(false), s[1..])
      case NullTok => Got(JNull, s[1..])
      case LBrack =>
        (match ReadItems(s[1..])
         case Fail => Fail
         case Got(items, rest) => Got(JArr(items), rest))
      case LBrace =>
        (match ReadMembers(s[1..])
         case Fail => Fail
         case Got(members, rest) => Got(JObj(members), rest))
      case _ => Fail
  }

  function ReadItems(s: seq<Lex>): (r: Read<Items>)
    ensures r.Got? ==> |r.rest| < |s|
    decreases |s|, 2
  {
    if s == [] then Fail
    else if s[0] == RBrack then Got(INil, s[1..])
    else ReadItem(s)
  }

  /** One item and everything up to the closing bracket. */
  function ReadItem(s: seq<Lex>): (r: Read<Items>)
    ensures r.Got? ==> |r.rest| < |s|
    decreases |s|, 1
  {
    match ReadValue(s)
    case Fail => Fail
    case Got(v, rest) =>
      match ReadTail(rest)
      case Fail => Fail
      case Got(items, rest') => Got(ICons(v, items), rest')
  }

  function ReadTail(s: seq<Lex>): (r: Read<Items>)
    ensures r.Got? ==> |r.rest| < |s|
    decreases |s|, 2
  {
    if s == [] then Fail
    else if s[0] == RBrack then Got(INil, s[1..])
    else if s[0] == Comma then ReadItem(s[1..])
    else Fail
  }

  function ReadMembers(s: seq<Lex>): (r: Read<Members>)
    ensures r.Got? ==> |r.rest| < |s|
    decreases |s|, 2
  {
    if s == [] then Fail
    else if s[0] == RBrace then Got(MNil, s[1..])
    else ReadMember(s)
  }

  /** One member and everything up to the closing brace. */
  function ReadMember(s: seq<Lex>): (r: Read<Members>)
    ensures r.Got? ==> |r.rest| < |s|
    decreases |s|, 1
  {
    if |s| < 2 || !s[0].StrTok? || s[1] != Colon then Fail
    else
      match ReadValue(s[2..])
      case Fail => Fail
      case Got(v, rest) =>
        match ReadRest(rest)
        case Fail => Fail
        case Got(members, rest') => Got(MCons(s[0].s, v, members), rest')
  }

  function ReadRest(s: seq<Lex>): (r: Read<Members>)
    ensures r.Got? ==> |r.rest| < |s|
    decreases |s|, 2
  {
    if s == [] then Fail
    else if s[0] == RBrace then Got(MNil, s[1..])
    else if s[0] == Comma then ReadMember(s[1..])
    else Fail
  }

  // ----- Reading undoes printing, whatever follows -----

  lemma Headed(s: seq<Lex>, rest: seq<Lex>)
    requires s != []
    ensures (s + rest)[0] == s[0] && (s + rest)[1..] == s[1..] + rest
  {
  }

  lemma MemberHeaded(k: string, v: seq<Lex>, more: seq<Lex>, rest: seq<Lex>)
    ensures var s := [StrTok(k), Colon] + v + more + rest;
            |s| >= 2 && s[0] == StrTok(k) && s[1] == Colon && s[2..] == v + (more + rest)
  {
  }

  lemma {:induction false} ReadTokens(j: Tree, rest: seq<Lex>)
    ensures ReadValue(Tokens(j) + rest) == Got(j, rest)
    decreases j, 1
  {
    Headed(Tokens(j), rest);
    match j
    case JArr(items) =>
      ReadItemsTokens(items, rest);
    case JObj(members) =>
      ReadMembersTokens(members, rest);
    case _ =>
  }

  lemma {:induction false} ReadItemsTokens(items: Items, rest: seq<Lex>)
    ensures ReadItems(ItemsTokens(items) + rest) == Got(items, rest)
    decreases items, 2
  {
    Headed(ItemsTokens(items), rest);
    if items.ICons? {
      assert ItemsTokens(items)[0] == Tokens(items.head)[0];
      ReadItemTokens(items, rest);
    }
  }

  lemma {:induction false} ReadItemTokens(items: Items, rest: seq<Lex>)
    requires items.ICons?
    ensures ReadItem(Tokens(items.head) + TailTokens(items.tail) + rest) == Got(items, rest)
    decreases items, 1
  {
    var head, more := Tokens(items.head), TailTokens(items.tail);
    assert head + more + rest == head + (more + rest);
    ReadTokens(items.head, more + rest);
    ReadTailTokens(items.tail, rest);
  }

  lemma {:induction false} ReadTailTokens(items: Items, rest: seq<Lex>)
    ensures ReadTail(TailTokens(items) + rest) == Got(items, rest)
    decreases items, 2
  {
    Headed(TailTokens(items), rest);
    if items.ICons? {
      assert TailTokens(items)[1..] == Tokens(items.head) + TailTokens(items.tail);
      ReadItemTokens(items, rest);
    }
  }

  lemma {:induction false} ReadMembersTokens(members: Members, rest: seq<Lex>)
    ensures ReadMembers(MembersTokens(members) + rest) == Got(members, rest)
    decreases members, 2
  {
    Headed(MembersTokens(members), rest);
    if members.MCons? { ReadMemberTokens(members, rest); }
  }

  lemma {:induction false} ReadMemberTokens(members: Members, rest: seq<Lex>)
    requires members.MCons?
    ensures ReadMember([StrTok(members.key), Colon] + Tokens(members.value) + RestTokens(members.rest) + rest) == Got(members, rest)
    decreases members, 1
  {
    var value, more := Tokens(members.value), RestTokens(members.rest);
    MemberHeaded(members.key, value, more, rest);
    ReadTokens(members.value, more + rest);
    ReadRestTokens(members.rest, rest);
  }

  lemma {:induction false} ReadRestTokens(members: Members, rest: seq<Lex>)
    ensures ReadRest(RestTokens(members) + rest) == Got(members, rest)
    decreases members, 2
  {
    Headed(RestTokens(members), rest);
    if members.MCons? {
      assert RestTokens(members)[1..] == [StrTok(members.key), Colon] + Tokens(members.value) + RestTokens(members.rest);
      ReadMemberTokens(members, rest);
    }
  }

  // ----- Only printed trees are read -----

  lemma {:induction false} ReadIsTokens(s: seq<Lex>)
    ensures var r := ReadValue(s); r.Got? ==> s == Tokens(r.value) + r.rest
    decreases |s|, 0
  {
    if ReadValue(s).Got? {
      assert s == [s[0]] + s[1..];
      if s[0] == LBrack {
        ReadItemsIsTokens(s[1..]);
      } else if s[0] == LBrace {
        ReadMembersIsTokens(s[1..]);
      }
    }
  }

  lemma {:induction false} ReadItemsIsTokens(s: seq<Lex>)
    ensures var r := ReadItems(s); r.Got? ==> s == ItemsTokens(r.value) + r.rest
    decreases |s|, 2
  {
    if ReadItems(s).Got? {
      assert s == [s[0]] + s[1..];
      if s[0] != RBrack { ReadItemIsTokens(s); }
    }
  }

  lemma {:induction false} ReadMembersIsTokens(s: seq<Lex>)
    ensures var r := ReadMembers(s); r.Got? ==> s == MembersTokens(r.value) + r.rest
    decreases |s|, 2
  {
    if ReadMembers(s).Got? {
      assert s == [s[0]] + s[1..];
      if s[0] != RBrace { ReadMemberIsTokens(s); }
    }
  }

  lemma {:induction false} ReadItemIsTokens(s: seq<Lex>)
    ensures var r := ReadItem(s);
            r.Got? ==> r.value.ICons? && s == Tokens(r.value.head) + TailTokens(r.value.tail) + r.rest
    decreases |s|, 1
  {
    ReadIsTokens(s);
    if ReadValue(s).Got? {
      ReadTailIsTokens(ReadValue(s).rest);
    }
  }

  lemma Regroup(s: seq<Lex>, v: seq<Lex>, more: seq<Lex>, rest: seq<Lex>)
    requires |s| >= 2 && s[2..] == v + (more + rest)
    ensures s == [s[0], s[1]] + v + more + rest
  {
    assert s == [s[0], s[1]] + s[2..];
  }

  lemma {:induction false} ReadMemberIsTokens(s: seq<Lex>)
    ensures var r := ReadMember(s);
            r.Got? ==> && r.value.MCons?
                       && s == [StrTok(r.value.key), Colon] + Tokens(r.value.value) + RestTokens(r.value.rest) + r.rest
    decreases |s|, 1
  {
    if ReadMember(s).Got? {
      var v := ReadValue(s[2..]);
      ReadIsTokens(s[2..]);
      ReadRestIsTokens(v.rest);
      var more := ReadRest(v.rest);
      Regroup(s, Tokens(v.value), RestTokens(more.value), more.rest);
    }
  }

  lemma {:induction false} ReadTailIsTokens(s: seq<Lex>)
    ensures var r := ReadTail(s); r.Got? ==> s == TailTokens(r.value) + r.rest
    decreases |s|, 2
  {
    if ReadTail(s).Got? {
      assert s == [s[0]] + s[1..];
      if s[0] == Comma { ReadItemIsTokens(s[1..]); }
    }
  }

  lemma {:induction false} ReadRestIsTokens(s: seq<Lex>)
    ensures var r := ReadRest(s); r.Got? ==> s == RestTokens(r.value) + r.rest
    decreases |s|, 2
  {
    if ReadRest(s).Got? {
      assert s == [s[0]] + s[1..];
      if s[0] == Comma { ReadMemberIsTokens(s[1..]); }
    }
  }

  /** The grammar is unambiguous and self-delimiting: two values that begin
      the same text are the same value. */
  lemma TokensInjective(a: Tree, restA: seq<Lex>, b: Tree, restB: seq<Lex>)
    requires Tokens(a) + restA == Tokens(b) + restB
    ensures a == b && restA == restB
  {
    ReadTokens(a, restA);
    ReadTokens(b, restB);
  }
}
