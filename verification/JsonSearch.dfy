/** Searching a JSON token stream for a field path. */
module JsonSearch {
  import opened Text
  import JsonCodec

  /** Commas and colons are not tokens; keys are string tokens. */
  datatype Token = OpenObject | OpenArray | CloseObject | CloseArray | Str(s: string) | Other(text: string)

  predicate IsOpen(t: Token) { t.OpenObject? || t.OpenArray? }

  predicate IsClose(t: Token) { t.CloseObject? || t.CloseArray? }

  /** There is another element before the enclosing object or array ends. */
  predicate More(ts: seq<Token>) { ts != [] && !IsClose(ts[0]) }

  // ---------------------------------------------------------------- documents

  datatype Doc = Text(s: string) | Scalar(text: string) | Object(members: seq<Member>) | Array(items: seq<Doc>)

  datatype Member = Member(key: string, value: Doc)

  function Tokens(d: Doc): (ts: seq<Token>)
    ensures ts != [] && !IsClose(ts[0])
    decreases d
  {
    match d
    case Text(s) => [Str(s)]
    case Scalar(text) => [Other(text)]
    case Object(members) => [OpenObject] + MemberTokens(members) + [CloseObject]
    case Array(items) => [OpenArray] + ItemTokens(items) + [CloseArray]
  }

  function MemberTokens(ms: seq<Member>): seq<Token>
    decreases ms
  {
    if ms == [] then [] else [Str(ms[0].key)] + Tokens(ms[0].value) + MemberTokens(ms[1..])
  }

  function ItemTokens(ds: seq<Doc>): seq<Token>
    decreases ds
  {
    if ds == [] then [] else Tokens(ds[0]) + ItemTokens(ds[1..])
  }

  // ---------------------------------------------------------------- skipping

  /** What is left once as many levels have closed as are open. */
  function Unwound(ts: seq<Token>, depth: nat): (rest: Option<seq<Token>>)
    ensures rest.Some? ==> |rest.value| <= |ts|
    decreases |ts|
  {
    if depth == 0 then Some(ts)
    else if ts == [] then None
    else Unwound(ts[1..], if IsOpen(ts[0]) then depth + 1 else if IsClose(ts[0]) then depth - 1 else depth)
  }

  /** What is left after one value. */
  function Skipped(ts: seq<Token>): (rest: Option<seq<Token>>)
    ensures rest.Some? ==> |rest.value| < |ts|
  {
    if ts == [] then None
    else if IsOpen(ts[0]) || IsClose(ts[0]) then Unwound(ts[1..], 1)
    else Some(ts[1..])
  }

  /** A token that neither opens nor closes anything is passed over. */
  lemma UnwoundPastOne(t: Token, rest: seq<Token>, depth: nat)
    requires depth > 0 && !IsOpen(t) && !IsClose(t)
    ensures Unwound([t] + rest, depth) == Unwound(rest, depth)
  {
    assert ([t] + rest)[1..] == rest;
  }

  /** A whole value leaves the nesting as it was. */
  lemma {:induction false} UnwoundPast(d: Doc, rest: seq<Token>, depth: nat)
    requires depth > 0
    ensures Unwound(Tokens(d) + rest, depth) == Unwound(rest, depth)
    decreases d, 1
  {
    match d
    case Text(_) => assert (Tokens(d) + rest)[1..] == rest;
    case Scalar(_) => assert (Tokens(d) + rest)[1..] == rest;
    case Object(members) =>
      var inside := MemberTokens(members);
      assert (Tokens(d) + rest)[1..] == inside + ([CloseObject] + rest);
      UnwoundPastMembers(members, [CloseObject] + rest, depth + 1);
      assert ([CloseObject] + rest)[1..] == rest;
    case Array(items) =>
      var inside := ItemTokens(items);
      assert (Tokens(d) + rest)[1..] == inside + ([CloseArray] + rest);
      UnwoundPastItems(items, [CloseArray] + rest, depth + 1);
      assert ([CloseArray] + rest)[1..] == rest;
  }

  lemma {:induction false} UnwoundPastMembers(ms: seq<Member>, rest: seq<Token>, depth: nat)
    requires depth > 0
    ensures Unwound(MemberTokens(ms) + rest, depth) == Unwound(rest, depth)
    decreases ms, 0
  {
    hide Tokens, Unwound;
    if ms == [] {
      assert MemberTokens(ms) + rest == rest;
    } else {
      var after := MemberTokens(ms[1..]) + rest;
      assert MemberTokens(ms) + rest == [Str(ms[0].key)] + (Tokens(ms[0].value) + after);
      UnwoundPastOne(Str(ms[0].key), Tokens(ms[0].value) + after, depth);
      UnwoundPast(ms[0].value, after, depth);
      UnwoundPastMembers(ms[1..], rest, depth);
    }
  }

  lemma {:induction false} UnwoundPastItems(ds: seq<Doc>, rest: seq<Token>, depth: nat)
    requires depth > 0
    ensures Unwound(ItemTokens(ds) + rest, depth) == Unwound(rest, depth)
    decreases ds, 0
  {
    hide Tokens, Unwound;
    if ds == [] {
      assert ItemTokens(ds) + rest == rest;
    } else {
      var after := ItemTokens(ds[1..]) + rest;
      assert ItemTokens(ds) + rest == Tokens(ds[0]) + after;
      UnwoundPast(ds[0], after, depth);
      UnwoundPastItems(ds[1..], rest, depth);
    }
  }

  /** Skipping consumes exactly one value, however deeply nested. */
  lemma SkipsOneValue(d: Doc, rest: seq<Token>)
    ensures Skipped(Tokens(d) + rest) == Some(rest)
  {
    hide Unwound;
    var ts := Tokens(d) + rest;
    match d
    case Text(_) => assert ts[1..] == rest;
    case Scalar(_) => assert ts[1..] == rest;
    case Object(members) =>
      assert ts[1..] == MemberTokens(members) + ([CloseObject] + rest);
      UnwoundPastMembers(members, [CloseObject] + rest, 1);
      LastClose(CloseObject, rest);
    case Array(items) =>
      assert ts[1..] == ItemTokens(items) + ([CloseArray] + rest);
      UnwoundPastItems(items, [CloseArray] + rest, 1);
      LastClose(CloseArray, rest);
  }

  lemma LastClose(t: Token, rest: seq<Token>)
    requires IsClose(t)
    ensures Unwound([t] + rest, 1) == Some(rest)
  {
    assert ([t] + rest)[1..] == rest;
  }

  // ---------------------------------------------------------------- searching

  /** Where a path leads, as the number of tokens still unread when the key or element is met. */
  function Found(ts: seq<Token>, path: seq<string>): Option<nat>
    requires path != []
    decreases |ts|, |path|, 0
  {
    if ts == [] then None
    else if ts[0].OpenObject? then FoundInObject(ts[1..], path)
    else if ts[0].OpenArray? && JsonCodec.ParseInt(path[0]).Some? then FoundInArray(ts[1..], path, JsonCodec.ParseInt(path[0]).value)
    else None
  }

  function FoundInObject(ts: seq<Token>, path: seq<string>): Option<nat>
    requires path != []
    decreases |ts|, |path|, 1
  {
    if !More(ts) || !ts[0].Str? then None
    else if ts[0].s == path[0] then if |path| == 1 then Some(|ts|) else Found(ts[1..], path[1..])
    else
      var rest := Skipped(ts[1..]);
      if rest.None? then None else FoundInObject(rest.value, path)
  }

  /** The index counts down to the element looked for. */
  function FoundInArray(ts: seq<Token>, path: seq<string>, index: int): Option<nat>
    requires path != []
    decreases |ts|, |path|, 1
  {
    if !More(ts) then None
    else if index == 0 then if |path| == 1 then Some(|ts|) else Found(ts, path[1..])
    else
      var rest := Skipped(ts);
      if rest.None? then None else FoundInArray(rest.value, path, index - 1)
  }

  /** The place of a path in a document, as a number of tokens: the first key that matches decides. */
  function Resolve(d: Doc, path: seq<string>): Option<nat>
    requires path != []
    decreases d
  {
    match d
    case Object(members) => Shifted(1, ResolveInMembers(members, path))
    case Array(items) =>
      var index := JsonCodec.ParseInt(path[0]);
      if index.None? then None else Shifted(1, ResolveInItems(items, path, index.value))
    case _ => None
  }

  function ResolveInMembers(ms: seq<Member>, path: seq<string>): Option<nat>
    requires path != []
    decreases ms
  {
    if ms == [] then None
    else if ms[0].key == path[0] then if |path| == 1 then Some(0) else Shifted(1, Resolve(ms[0].value, path[1..]))
    else Shifted(1 + |Tokens(ms[0].value)|, ResolveInMembers(ms[1..], path))
  }

  function ResolveInItems(ds: seq<Doc>, path: seq<string>, index: int): Option<nat>
    requires path != []
    decreases ds
  {
    if ds == [] then None
    else if index == 0 then if |path| == 1 then Some(0) else Resolve(ds[0], path[1..])
    else Shifted(|Tokens(ds[0])|, ResolveInItems(ds[1..], path, index - 1))
  }

  function Shifted(n: nat, at: Option<nat>): Option<nat> {
    if at.None? then None else Some(n + at.value)
  }

  /** The tokens left of n at a place. */
  predicate Leaves(found: Option<nat>, n: nat, at: Option<nat>) {
    if at.None? then found.None? else found.Some? && found.value + at.value == n
  }

  /** The search finds a path exactly where the document has it, whatever follows the document. */
  lemma {:induction false} SearchIsExact(d: Doc, rest: seq<Token>, path: seq<string>)
    requires path != []
    ensures Leaves(Found(Tokens(d) + rest, path), |Tokens(d) + rest|, Resolve(d, path))
    decreases d, 1
  {
    var ts := Tokens(d) + rest;
    match d
    case Object(members) =>
      assert ts[1..] == MemberTokens(members) + ([CloseObject] + rest);
      MembersAreExact(members, [CloseObject] + rest, path);
    case Array(items) =>
      assert ts[1..] == ItemTokens(items) + ([CloseArray] + rest);
      if JsonCodec.ParseInt(path[0]).Some? {
        ItemsAreExact(items, [CloseArray] + rest, path, JsonCodec.ParseInt(path[0]).value);
      }
    case _ =>
  }

  lemma {:induction false} MembersAreExact(ms: seq<Member>, rest: seq<Token>, path: seq<string>)
    requires path != [] && rest != [] && IsClose(rest[0])
    ensures Leaves(FoundInObject(MemberTokens(ms) + rest, path), |MemberTokens(ms) + rest|, ResolveInMembers(ms, path))
    decreases ms, 0
  {
    hide Tokens, Found, Resolve, Skipped;
    var ts := MemberTokens(ms) + rest;
    if ms == [] {
      assert ts == rest;
    } else {
      var after := MemberTokens(ms[1..]) + rest;
      assert ts[0] == Str(ms[0].key) && ts[1..] == Tokens(ms[0].value) + after;
      if ms[0].key == path[0] {
        if |path| > 1 {
          SearchIsExact(ms[0].value, after, path[1..]);
        }
      } else {
        SkipsOneValue(ms[0].value, after);
        MembersAreExact(ms[1..], rest, path);
      }
    }
  }

  lemma {:induction false} ItemsAreExact(ds: seq<Doc>, rest: seq<Token>, path: seq<string>, index: int)
    requires path != [] && rest != [] && IsClose(rest[0])
    ensures Leaves(FoundInArray(ItemTokens(ds) + rest, path, index), |ItemTokens(ds) + rest|, ResolveInItems(ds, path, index))
    decreases ds, 0
  {
    hide Tokens, Found, Resolve, Skipped;
    var ts := ItemTokens(ds) + rest;
    if ds == [] {
      assert ts == rest;
    } else {
      var after := ItemTokens(ds[1..]) + rest;
      assert ts == Tokens(ds[0]) + after;
      assert ts[0] == Tokens(ds[0])[0];
      if index == 0 {
        if |path| > 1 {
          SearchIsExact(ds[0], after, path[1..]);
        }
      } else {
        SkipsOneValue(ds[0], after);
        ItemsAreExact(ds[1..], rest, path, index - 1);
      }
    }
  }

  // ---------------------------------------------------------------- as it is carried out

  class Decoder {
    const tokens: seq<Token>
    var pos: nat

    ghost predicate Valid()
      reads this
    {
      pos <= |tokens|
    }

    function Rest(): seq<Token>
      reads this
      requires Valid()
    {
      tokens[pos..]
    }

    constructor (ts: seq<Token>)
      ensures Valid() && tokens == ts && Rest() == ts
    {
      tokens, pos := ts, 0;
    }

    method Token() returns (t: Option<Token>)
      requires Valid()
      modifies this
      ensures Valid() && if old(Rest()) == [] then t == None && Rest() == [] else t == Some(old(Rest())[0]) && Rest() == old(Rest())[1..]
    {
      if pos == |tokens| {
        return None;
      }
      t := Some(tokens[pos]);
      pos := pos + 1;
    }
  }

  method SkipJsonValue(dec: Decoder) returns (ok: bool)
    requires dec.Valid()
    modifies dec
    ensures dec.Valid() && ok == Skipped(old(dec.Rest())).Some?
    ensures ok ==> Some(dec.Rest()) == Skipped(old(dec.Rest()))
  {
    hide Decoder.Rest;
    var tok := dec.Token();
    if tok.None? {
      return false;
    }
    if IsOpen(tok.value) || IsClose(tok.value) {
      var depth: nat := 1;
      ghost var start := dec.Rest();
      while depth > 0
        invariant dec.Valid() && Unwound(dec.Rest(), depth) == Unwound(start, 1)
        decreases |dec.Rest()|, depth
      {
        var t := dec.Token();
        if t.None? {
          return false;
        }
        if IsOpen(t.value) {
          depth := depth + 1;
        } else if IsClose(t.value) {
          depth := depth - 1;
        }
      }
    }
    return true;
  }

  /** The position in the stream that a result stands for. */
  function PositionOf(tokens: seq<Token>, found: Option<nat>): Option<int> {
    if found.None? then None else Some(|tokens| - found.value)
  }

  method SearchPath(dec: Decoder, path: seq<string>) returns (at: Option<int>)
    requires dec.Valid() && path != []
    modifies dec
    ensures dec.Valid() && at == PositionOf(dec.tokens, Found(old(dec.Rest()), path))
    decreases |dec.Rest()|, |path|, 0
  {
    hide FoundInObject, FoundInArray, JsonCodec.ParseInt;
    var tok := dec.Token();
    if tok.None? {
      return None;
    }
    if tok.value.OpenObject? {
      at := SearchObject(dec, path);
    } else if tok.value.OpenArray? {
      var index := JsonCodec.ParseInt(path[0]);
      if index.None? {
        return None;
      }
      at := SearchArray(dec, path, index.value);
    } else {
      return None;
    }
  }

  method SearchObject(dec: Decoder, path: seq<string>) returns (at: Option<int>)
    requires dec.Valid() && path != []
    modifies dec
    ensures dec.Valid() && at == PositionOf(dec.tokens, FoundInObject(old(dec.Rest()), path))
    decreases |dec.Rest()|, |path|, 1
  {
    hide Found, Skipped;
    ghost var start := dec.Rest();
    while More(dec.Rest())
      invariant dec.Valid() && |dec.Rest()| <= |start| && FoundInObject(dec.Rest(), path) == FoundInObject(start, path)
      decreases |dec.Rest()|
    {
      var keyAt := dec.pos;
      var key := dec.Token();
      if !key.value.Str? {
        return None;
      }
      if key.value.s == path[0] {
        if |path| == 1 {
          return Some(keyAt);
        }
        at := SearchPath(dec, path[1..]);
        return;
      }
      var ok := SkipJsonValue(dec);
      if !ok {
        return None;
      }
    }
    var closing := dec.Token();
    return None;
  }

  method SearchArray(dec: Decoder, path: seq<string>, target: int) returns (at: Option<int>)
    requires dec.Valid() && path != []
    modifies dec
    ensures dec.Valid() && at == PositionOf(dec.tokens, FoundInArray(old(dec.Rest()), path, target))
    decreases |dec.Rest()|, |path|, 1
  {
    hide Found, Skipped;
    ghost var start := dec.Rest();
    var current := 0;
    while More(dec.Rest())
      invariant dec.Valid() && |dec.Rest()| <= |start| && FoundInArray(dec.Rest(), path, target - current) == FoundInArray(start, path, target)
      decreases |dec.Rest()|
    {
      var elementAt := dec.pos;
      if current == target {
        if |path| == 1 {
          return Some(elementAt);
        }
        at := SearchPath(dec, path[1..]);
        return;
      }
      var ok := SkipJsonValue(dec);
      if !ok {
        return None;
      }
      current := current + 1;
    }
    var closing := dec.Token();
    return None;
  }

  // ---------------------------------------------------------------- path text

  /** Brackets read as dots. */
  function Cleaned(s: string): string {
    if s == "" then ""
    else (if s[0] == '[' then "." else if s[0] == ']' then "" else [s[0]]) + Cleaned(s[1..])
  }

  function Kept(parts: seq<string>): seq<string> {
    if parts == [] then []
    else (if JsonCodec.Trim(parts[0]) == "" then [] else [JsonCodec.Trim(parts[0])]) + Kept(parts[1..])
  }

  function ParsePathSegments(path: string): seq<string> {
    if JsonCodec.Trim(path) == "" then [] else Kept(Split(Cleaned(path), '.'))
  }

  datatype Step = Key(name: string) | Index(n: nat)

  function StepText(s: Step): string {
    match s case Key(name) => name case Index(n) => Itoa(n)
  }

  function Texts(steps: seq<Step>): seq<string> {
    if steps == [] then [] else Texts(steps[..|steps| - 1]) + [StepText(steps[|steps| - 1])]
  }

  /** The path that names the steps from the root of a document. */
  function PathOf(steps: seq<Step>): string {
    if steps == [] then ""
    else
      var parent, last := PathOf(steps[..|steps| - 1]), steps[|steps| - 1];
      match last
      case Key(name) => if parent == "" then name else parent + "." + name
      case Index(n) => parent + "[" + Itoa(n) + "]"
  }

  /** A key that a path can name: not empty, without path punctuation, and without blanks at its ends. */
  predicate Nameable(key: string) {
    key != "" && !JsonCodec.IsBlank(key[0]) && !JsonCodec.IsBlank(key[|key| - 1])
    && forall i :: 0 <= i < |key| ==> key[i] !in ".[]"
  }

  predicate AllNameable(steps: seq<Step>) {
    forall i :: 0 <= i < |steps| && steps[i].Key? ==> Nameable(steps[i].name)
  }

  lemma {:induction false} CleanedJoins(s: string, t: string)
    ensures Cleaned(s + t) == Cleaned(s) + Cleaned(t)
  {
    if s == "" {
      assert s + t == t;
    } else {
      assert (s + t)[1..] == s[1..] + t;
      CleanedJoins(s[1..], t);
    }
  }

  lemma {:induction false} CleanedKeeps(s: string)
    requires forall i :: 0 <= i < |s| ==> s[i] !in ".[]"
    ensures Cleaned(s) == s
  {
    if s != "" {
      CleanedKeeps(s[1..]);
      assert s == [s[0]] + s[1..];
    }
  }

  lemma {:induction false} KeptJoins(a: seq<string>, b: seq<string>)
    ensures Kept(a + b) == Kept(a) + Kept(b)
  {
    hide JsonCodec.Trim;
    if a == [] {
      assert a + b == b;
    } else {
      assert (a + b)[1..] == a[1..] + b;
      KeptJoins(a[1..], b);
    }
  }

  lemma NameableEnds(key: string)
    requires Nameable(key)
    ensures key != "" && !JsonCodec.IsBlank(key[|key| - 1])
  {
  }

  lemma NameableText(s: Step)
    requires s.Key? ==> Nameable(s.name)
    ensures Nameable(StepText(s))
  {
    hide Itoa;
    if s.Index? {
      var t := Itoa(s.n);
      assert IsDigit(t[0]) && IsDigit(t[|t| - 1]);
      assert forall i :: 0 <= i < |t| ==> IsDigit(t[i]);
    }
  }

  lemma TrimKeepsNameable(t: string)
    requires Nameable(t)
    ensures JsonCodec.Trim(t) == t
  {
  }

  lemma OnePart(t: string)
    requires Nameable(t)
    ensures Split(t, '.') == [t] && Kept([t]) == [t] && Cleaned(t) == t
  {
    hide JsonCodec.Trim;
    CleanedKeeps(t);
    IndexOfAbsent(t, '.');
    TrimKeepsNameable(t);
  }

  /** A dot and a nameable text append one segment. */
  lemma OneMorePart(p: string, t: string)
    requires Nameable(t)
    ensures Kept(Split(p + "." + t, '.')) == Kept(Split(p, '.')) + [t]
  {
    hide Split, Kept, Nameable;
    OnePart(t);
    SplitAtSeparator(p, '.', t);
    assert p + "." + t == p + ['.'] + t;
    KeptJoins(Split(p, '.'), [t]);
  }

  lemma NoPart()
    ensures Cleaned("") == "" && Kept(Split("", '.')) == [] && JsonCodec.Trim("") == ""
  {
    assert Split("", '.') == [""];
  }

  lemma {:induction false} SegmentsOfPath(steps: seq<Step>)
    requires AllNameable(steps)
    ensures Kept(Split(Cleaned(PathOf(steps)), '.')) == Texts(steps)
  {
    hide Split, Kept, Cleaned, Itoa, Nameable;
    if steps == [] {
      NoPart();
    } else {
      var before, last := steps[..|steps| - 1], steps[|steps| - 1];
      var parent, t := PathOf(before), StepText(last);
      SegmentsOfPath(before);
      NameableText(last);
      OnePart(t);
      OneMorePart(Cleaned(parent), t);
      if last.Index? {
        CleanedIndex(parent, t);
      } else if parent == "" {
        NoPart();
        assert [] + [t] == [t];
      } else {
        CleanedKey(parent, t);
      }
    }
  }

  lemma CleanedKey(p: string, t: string)
    requires Cleaned(t) == t
    ensures Cleaned(p + "." + t) == Cleaned(p) + "." + t
  {
    CleanedJoins(p + ".", t);
    CleanedJoins(p, ".");
    assert Cleaned(".") == ".";
  }

  lemma CleanedIndex(p: string, t: string)
    requires Cleaned(t) == t
    ensures Cleaned(p + "[" + t + "]") == Cleaned(p) + "." + t
  {
    CleanedJoins(p + "[" + t, "]");
    CleanedJoins(p + "[", t);
    CleanedJoins(p, "[");
    assert Cleaned("[") == "." && Cleaned("]") == "";
  }

  lemma {:induction false} EndsInText(s: string)
    requires s != "" && !JsonCodec.IsBlank(s[|s| - 1])
    ensures JsonCodec.Trim(s) != ""
  {
    TrimLeftKeepsEnd(s);
  }

  lemma {:induction false} TrimLeftKeepsEnd(s: string)
    requires s != "" && !JsonCodec.IsBlank(s[|s| - 1])
    ensures var t := JsonCodec.TrimLeft(s); t != "" && !JsonCodec.IsBlank(t[|t| - 1])
  {
    if JsonCodec.IsBlank(s[0]) {
      TrimLeftKeepsEnd(s[1..]);
    }
  }

  lemma BracketIsNoBlank()
    ensures !JsonCodec.IsBlank(']')
  {
  }

  /** A rendered path parses back into its steps. */
  lemma PathParsesBack(steps: seq<Step>)
    requires AllNameable(steps)
    ensures ParsePathSegments(PathOf(steps)) == Texts(steps)
  {
    hide Split, Kept, Cleaned, Itoa, JsonCodec.Trim, JsonCodec.IsBlank;
    SegmentsOfPath(steps);
    if steps == [] {
      NoPart();
    } else {
      var path, last := PathOf(steps), steps[|steps| - 1];
      BracketIsNoBlank();
      if last.Key? {
        NameableEnds(last.name);
        assert path[|path| - 1] == last.name[|last.name| - 1];
      }
      EndsInText(path);
    }
  }

  /** On the tokens of a document, the search yields the place of the path in it, or nothing if it has no such path. */
  method FindJsonPathLocation(d: Doc, path: string) returns (at: Option<int>)
    ensures var segments := ParsePathSegments(path);
            if segments == [] then at == Some(0)
            else match Resolve(d, segments) { case None => at == None case Some(n) => at == Some(n) }
  {
    hide ParsePathSegments, Found, Resolve, Tokens;
    var segments := ParsePathSegments(path);
    if segments == [] {
      return Some(0);
    }
    var dec := new Decoder(Tokens(d));
    assert Tokens(d) + [] == Tokens(d);
    SearchIsExact(d, [], segments);
    at := SearchPath(dec, segments);
  }
}
