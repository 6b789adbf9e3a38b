/** The strict JSON walker: exactly one value, no repeated object key at any
    depth, nothing after it. The walker is proved against the grammar. */
module StrictJson {
  import opened Text
  import opened Json

  // ----- The token decoder the walker drives (encoding/json's Decoder) -----

  datatype TokenState =
    | TopValue
    | ArrayStart | ArrayValue | ArrayComma
    | ObjectStart | ObjectKey | ObjectColon | ObjectValue | ObjectComma

  predicate ValueAllowed(st: TokenState)
  {
    st in {TopValue, ArrayStart, ArrayValue, ObjectValue}
  }

  function ValueEnd(st: TokenState): TokenState
  {
    match st
    case ArrayStart | ArrayValue => ArrayComma
    case ObjectValue => ObjectComma
    case _ => st
  }

  datatype Token = Eof | Error | Lexeme(lex: Lex)

  datatype Scanned = Scanned(token: Token, rest: seq<Lex>, state: TokenState, stack: seq<TokenState>)

  /** Commas and colons are elided where they are due. */
  function Separator(lex: Lex, st: TokenState): Option<TokenState>
  {
    match (lex, st)
    case (Colon, ObjectColon) => Some(ObjectValue)
    case (Comma, ArrayComma) => Some(ArrayValue)
    case (Comma, ObjectComma) => Some(ObjectKey)
    case _ => None
  }

  predicate IsScalar(lex: Lex)
  {
    lex.StrTok? || lex.NumTok? || lex in {TrueTok, FalseTok, NullTok}
  }

  /** The state after a token that is allowed here: brackets push and pop. */
  function Advance(lex: Lex, st: TokenState, stack: seq<TokenState>): Option<(TokenState, seq<TokenState>)>
  {
    var open := |stack| - 1;
    if lex == LBrack && ValueAllowed(st) then Some((ArrayStart, stack + [st]))
    else if lex == LBrace && ValueAllowed(st) then Some((ObjectStart, stack + [st]))
    else if lex == RBrack && st in {ArrayStart, ArrayComma} && stack != [] then Some((ValueEnd(stack[open]), stack[..open]))
    else if lex == RBrace && st in {ObjectStart, ObjectComma} && stack != [] then Some((ValueEnd(stack[open]), stack[..open]))
    else if lex.StrTok? && st in {ObjectStart, ObjectKey} then Some((ObjectColon, stack))
    else if IsScalar(lex) && ValueAllowed(st) then Some((ValueEnd(st), stack))
    else None
  }

  /** The next token. After an error the decoder is not used again. */
  function Scan(s: seq<Lex>, st: TokenState, stack: seq<TokenState>): Scanned
  {
    if s == [] then Scanned(Eof, s, st, stack)
    else if Separator(s[0], st).Some? then Scan(s[1..], Separator(s[0], st).value, stack)
    else
      var next := Advance(s[0], st, stack);
      if next.None? then Scanned(Error, s, st, stack)
      else Scanned(Lexeme(s[0]), s[1..], next.value.0, next.value.1)
  }

  class Decoder {
    const toks: seq<Lex>
    var pos: nat
    var state: TokenState
    var stack: seq<TokenState>

    ghost predicate Valid()
      reads this
    {
      pos <= |toks|
    }

    function Rest(): seq<Lex>
      reads this
      requires Valid()
    {
      toks[pos..]
    }

    constructor (data: seq<Lex>)
      ensures Valid() && toks == data && pos == 0 && state == TopValue && stack == []
    {
      toks, pos, state, stack := data, 0, TopValue, [];
    }

    /** Reports whether another element follows in the current array or object. */
    method More() returns (more: bool)
      requires Valid()
      ensures more <==> Rest() != [] && Rest()[0] !in {RBrack, RBrace}
    {
      more := pos < |toks| && toks[pos] !in {RBrack, RBrace};
    }

    method Token() returns (token: Token)
      requires Valid()
      modifies this
      ensures Valid() && old(pos) <= pos
      ensures token.Lexeme? ==> old(pos) < pos
      ensures Scanned(token, Rest(), state, stack) == Scan(old(Rest()), old(state), old(stack))
    {
      ghost var goal := Scan(Rest(), state, stack);
      while pos < |toks| && Separator(toks[pos], state).Some?
        invariant Valid() && old(pos) <= pos && stack == old(stack)
        invariant Scan(Rest(), state, stack) == goal
        decreases |toks| - pos
      {
        assert Rest()[1..] == toks[pos+1..];
        state := Separator(toks[pos], state).value;
        pos := pos + 1;
      }
      if pos == |toks| { return Eof; }
      assert Rest()[1..] == toks[pos+1..];
      var next := Advance(toks[pos], state, stack);
      if next.None? { return Error; }
      token := Lexeme(toks[pos]);
      pos, state, stack := pos + 1, next.value.0, next.value.1;
    }
  }

  // ----- What the walker must do, in terms of the grammar -----

  /** One value without repeated keys at the front of `s`, and what follows. */
  function Checked(s: seq<Lex>): Option<seq<Lex>>
  {
    var r := ReadValue(s);
    if r.Got? && UniqueKeys(r.value) then Some(r.rest) else None
  }

  function CheckedItems(s: seq<Lex>): Option<seq<Lex>>
  {
    var r := ReadItems(s);
    if r.Got? && UniqueItems(r.value) then Some(r.rest) else None
  }

  function CheckedTail(s: seq<Lex>): Option<seq<Lex>>
  {
    var r := ReadTail(s);
    if r.Got? && UniqueItems(r.value) then Some(r.rest) else None
  }

  function CheckedMembers(s: seq<Lex>, seen: set<string>): Option<seq<Lex>>
  {
    var r := ReadMembers(s);
    if r.Got? && UniqueMembers(r.value, seen) then Some(r.rest) else None
  }

  function CheckedRest(s: seq<Lex>, seen: set<string>): Option<seq<Lex>>
  {
    var r := ReadRest(s);
    if r.Got? && UniqueMembers(r.value, seen) then Some(r.rest) else None
  }

  /** The text of a value expected in state `st`, past its separator. */
  function PastSeparator(s: seq<Lex>, st: TokenState): Option<seq<Lex>>
  {
    match st
    case TopValue | ArrayStart => Some(s)
    case ArrayComma => if s != [] && s[0] == Comma then Some(s[1..]) else None
    case ObjectColon => if s != [] && s[0] == Colon then Some(s[1..]) else None
    case _ => None
  }

  function Expected(s: seq<Lex>, st: TokenState): Option<seq<Lex>>
  {
    var t := PastSeparator(s, st);
    if t.Some? then Checked(t.value) else None
  }

  lemma CheckedValue(s: seq<Lex>)
    ensures Checked(s) ==
            if s == [] then None
            else if IsScalar(s[0]) then Some(s[1..])
            else if s[0] == LBrack then CheckedItems(s[1..])
            else if s[0] == LBrace then CheckedMembers(s[1..], {})
            else None
  {
  }

  lemma CheckedItem(s: seq<Lex>)
    ensures var r := ReadItem(s);
            (if r.Got? && UniqueItems(r.value) then Some(r.rest) else None) ==
            if Checked(s).Some? then CheckedTail(Checked(s).value) else None
  {
  }

  lemma CheckedMember(s: seq<Lex>, seen: set<string>)
    ensures var r := ReadMember(s);
            (if r.Got? && UniqueMembers(r.value, seen) then Some(r.rest) else None) ==
            if |s| >= 2 && s[0].StrTok? && s[1] == Colon && s[0].s !in seen && Checked(s[2..]).Some?
            then CheckedRest(Checked(s[2..]).value, seen + {s[0].s})
            else None
  {
  }

  /** What the decoder hands over where a value is expected. */
  lemma ScanExpected(s: seq<Lex>, st: TokenState, stack: seq<TokenState>)
    requires st in {TopValue, ArrayStart, ArrayComma, ObjectColon}
    ensures var t := PastSeparator(s, st);
            var r := Scan(s, st, stack);
            var inner := if st == ArrayComma then ArrayValue else if st == ObjectColon then ObjectValue else st;
            if t.Some? && t.value != [] && IsScalar(t.value[0])
            then r == Scanned(Lexeme(t.value[0]), t.value[1..], ValueEnd(inner), stack)
            else if t.Some? && t.value != [] && t.value[0] == LBrack
            then r == Scanned(Lexeme(LBrack), t.value[1..], ArrayStart, stack + [inner])
            else if t.Some? && t.value != [] && t.value[0] == LBrace
            then r == Scanned(Lexeme(LBrace), t.value[1..], ObjectStart, stack + [inner])
            else !r.token.Lexeme? || r.token.lex in {RBrack, RBrace}
  {
    var t := PastSeparator(s, st);
    if t.Some? && t.value != [] {
      var inner := if st == ArrayComma then ArrayValue else if st == ObjectColon then ObjectValue else st;
      assert Scan(s, st, stack) == Scan(t.value, inner, stack);
    }
  }

  /** What remains to be checked of an object, before its first member or
      after one. */
  function CheckedObject(s: seq<Lex>, st: TokenState, seen: set<string>): Option<seq<Lex>>
  {
    if st == ObjectStart then CheckedMembers(s, seen) else CheckedRest(s, seen)
  }

  /** The text of a key, past its separator. */
  function KeyText(s: seq<Lex>, st: TokenState): seq<Lex>
  {
    if st == ObjectComma && s != [] then s[1..] else s
  }

  /** What the decoder hands over where a key is expected. */
  lemma ScanKeyText(s: seq<Lex>, st: TokenState, stack: seq<TokenState>)
    requires st in {ObjectStart, ObjectComma} && s != [] && s[0] !in {RBrack, RBrace}
    ensures var t := KeyText(s, st);
            var r := Scan(s, st, stack);
            if t != [] && t[0].StrTok? && (st == ObjectComma ==> s[0] == Comma)
            then r == Scanned(Lexeme(t[0]), t[1..], ObjectColon, stack)
            else r.token.Lexeme? ==> !r.token.lex.StrTok?
  {
    var t := KeyText(s, st);
    if t != [] && (st == ObjectStart || s[0] == Comma) {
      assert Scan(s, st, stack) == Scan(t, if st == ObjectStart then st else ObjectKey, stack);
    }
  }

  lemma CheckedKey(s: seq<Lex>, st: TokenState, seen: set<string>)
    requires st in {ObjectStart, ObjectComma} && s != [] && s[0] !in {RBrack, RBrace}
    ensures var t := KeyText(s, st);
            CheckedObject(s, st, seen) ==
            if t != [] && t[0].StrTok? && (st == ObjectComma ==> s[0] == Comma)
               && t[0].s !in seen && Expected(t[1..], ObjectColon).Some?
            then CheckedRest(Expected(t[1..], ObjectColon).value, seen + {t[0].s})
            else None
  {
    var t := KeyText(s, st);
    CheckedMember(t, seen);
    if |t| >= 2 { assert t[1..][1..] == t[2..]; }
  }

  lemma ScanKey(s: seq<Lex>, st: TokenState, stack: seq<TokenState>, seen: set<string>)
    requires st in {ObjectStart, ObjectComma} && s != [] && s[0] !in {RBrack, RBrace}
    ensures var t := KeyText(s, st);
            var r := Scan(s, st, stack);
            if r.token.Lexeme? && r.token.lex.StrTok?
            then
              && t != [] && r == Scanned(Lexeme(t[0]), t[1..], ObjectColon, stack)
              && CheckedObject(s, st, seen) ==
                 if t[0].s !in seen && Expected(t[1..], ObjectColon).Some?
                 then CheckedRest(Expected(t[1..], ObjectColon).value, seen + {t[0].s})
                 else None
            else CheckedObject(s, st, seen) == None
  {
    ScanKeyText(s, st, stack);
    CheckedKey(s, st, seen);
  }

  // ----- The walker -----

  /** Consumes one value, rejecting a repeated key anywhere inside it. */
  method WalkNoDupKeys(dec: Decoder) returns (ok: bool)
    requires dec.Valid() && dec.state in {TopValue, ArrayStart, ArrayComma, ObjectColon}
    modifies dec
    ensures dec.Valid() && old(dec.pos) <= dec.pos && (ok ==> old(dec.pos) < dec.pos)
    ensures ok <==> Expected(old(dec.Rest()), old(dec.state)).Some?
    ensures ok ==> && dec.Rest() == Expected(old(dec.Rest()), old(dec.state)).value
                   && dec.stack == old(dec.stack)
                   && dec.state == match old(dec.state) {
                                     case TopValue => TopValue
                                     case ObjectColon => ObjectComma
                                     case _ => ArrayComma
                                   }
    decreases |dec.toks| - dec.pos, 0
  {
    ghost var text := PastSeparator(dec.Rest(), dec.state);
    ScanExpected(dec.Rest(), dec.state, dec.stack);
    if text.Some? { CheckedValue(text.value); }
    var tok := dec.Token();
    if !tok.Lexeme? { return false; }
    match tok.lex {
      case LBrace =>
        ok := WalkObject(dec);
      case LBrack =>
        ok := WalkArray(dec);
      case RBrace | RBrack =>
        return false;
      case _ =>
        return true;
    }
  }

  /** Consumes an object body; the opening brace was already read. */
  method WalkObject(dec: Decoder) returns (ok: bool)
    requires dec.Valid() && dec.state == ObjectStart && dec.stack != []
    modifies dec
    ensures dec.Valid() && old(dec.pos) <= dec.pos
    ensures ok <==> CheckedMembers(old(dec.Rest()), {}).Some?
    ensures ok ==> && dec.Rest() == CheckedMembers(old(dec.Rest()), {}).value
                   && dec.stack == old(dec.stack)[..|old(dec.stack)|-1]
                   && dec.state == ValueEnd(old(dec.stack)[|old(dec.stack)|-1])
    decreases |dec.toks| - dec.pos, 1
  {
    ghost var goal := CheckedMembers(dec.Rest(), {});
    var seen: set<string> := {};
    var more := dec.More();
    while more
      invariant dec.Valid() && old(dec.pos) <= dec.pos && dec.stack == old(dec.stack)
      invariant more <==> dec.Rest() != [] && dec.Rest()[0] !in {RBrack, RBrace}
      invariant dec.state == ObjectStart || dec.state == ObjectComma
      invariant goal == CheckedObject(dec.Rest(), dec.state, seen)
      decreases |dec.toks| - dec.pos
    {
      ScanKey(dec.Rest(), dec.state, dec.stack, seen);
      var keyTok := dec.Token();
      if !keyTok.Lexeme? { return false; }
      if !keyTok.lex.StrTok? { return false; }
      var key := keyTok.lex.s;
      if key in seen { return false; }
      seen := seen + {key};
      ok := WalkNoDupKeys(dec);
      if !ok { return false; }
      more := dec.More();
    }
    CheckedMember(dec.Rest(), seen);
    var close := dec.Token();
    return close.Lexeme?;
  }

  /** Consumes an array body; the opening bracket was already read. */
  method WalkArray(dec: Decoder) returns (ok: bool)
    requires dec.Valid() && dec.state == ArrayStart && dec.stack != []
    modifies dec
    ensures dec.Valid() && old(dec.pos) <= dec.pos
    ensures ok <==> CheckedItems(old(dec.Rest())).Some?
    ensures ok ==> && dec.Rest() == CheckedItems(old(dec.Rest())).value
                   && dec.stack == old(dec.stack)[..|old(dec.stack)|-1]
                   && dec.state == ValueEnd(old(dec.stack)[|old(dec.stack)|-1])
    decreases |dec.toks| - dec.pos, 1
  {
    var more := dec.More();
    while more
      invariant dec.Valid() && old(dec.pos) <= dec.pos && dec.stack == old(dec.stack)
      invariant more <==> dec.Rest() != [] && dec.Rest()[0] !in {RBrack, RBrace}
      invariant dec.state == ArrayStart || dec.state == ArrayComma
      invariant CheckedItems(old(dec.Rest())) ==
                if dec.state == ArrayStart then CheckedItems(dec.Rest()) else CheckedTail(dec.Rest())
      decreases |dec.toks| - dec.pos
    {
      CheckedItem(if dec.state == ArrayComma then dec.Rest()[1..] else dec.Rest());
      ok := WalkNoDupKeys(dec);
      if !ok { return false; }
      more := dec.More();
    }
    CheckedItem(dec.Rest());
    CheckedValue(dec.Rest());
    var close := dec.Token();
    return close.Lexeme?;
  }

  /** The text is exactly one JSON value in which no object repeats a key. */
  ghost predicate StrictDocument(data: seq<Lex>)
  {
    exists j :: UniqueKeys(j) && data == Tokens(j)
  }

  lemma StrictIsChecked(data: seq<Lex>)
    ensures StrictDocument(data) <==> Checked(data) == Some([])
  {
    if j :| UniqueKeys(j) && data == Tokens(j) {
      ReadTokens(j, []);
      assert Tokens(j) + [] == data;
    }
    if Checked(data) == Some([]) {
      ReadIsTokens(data);
      assert data == Tokens(ReadValue(data).value);
    }
  }

  /** The duplicate-key scan accepts exactly the strict documents. */
  method RejectDuplicateKeys(data: seq<Lex>) returns (ok: bool)
    ensures ok <==> StrictDocument(data)
  {
    var dec := new Decoder(data);
    StrictIsChecked(data);
    assert dec.Rest() == data;
    ok := WalkNoDupKeys(dec);
    if !ok { return false; }
    var end := dec.Token();
    return end == Eof;
  }
}
