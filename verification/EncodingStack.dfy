/** The stack of writers that undoes the content codings of a response. */
module EncodingStack {
  import opened Ascii
  import opened Lists
  import opened Text

  // ---- The list of codings in the header value

  function TrimEnd(s: string): (t: string)
    ensures t <= s
  {
    if s != "" && IsSpace(s[|s| - 1]) then TrimEnd(s[..|s| - 1]) else s
  }

  function TrimStart(s: string): string {
    if s != "" && IsSpace(s[0]) then TrimStart(s[1..]) else s
  }

  function Trim(s: string): string { TrimEnd(TrimStart(s)) }

  /** The non-empty pieces between commas, trimmed, in order. */
  function Names(s: string): seq<string>
    decreases |s|
  {
    var piece := Until(s, ',');
    var name := Trim(piece);
    (if name == "" then [] else [name]) + (if |piece| == |s| then [] else Names(s[|piece| + 1..]))
  }

  // ---- The stack

  /** One stage: the client at the bottom, a known coding by its place in the table, or the deferred error. */
  datatype Handler = Client | Coding(index: nat) | Unrecognized

  /** A coding of the table: its names and what it does to a body. */
  datatype ContentEncoding<!T> = ContentEncoding(name: string, alias: string, encode: seq<T> -> seq<T>,
      decode: seq<T> -> seq<T>)

  predicate Answers<T>(e: ContentEncoding<T>, name: string) {
    EqualNoCase(name, e.name) || (e.alias != "" && EqualNoCase(name, e.alias))
  }

  function FindFrom<T>(table: seq<ContentEncoding<T>>, name: string, i: nat): (h: Handler)
    requires i <= |table|
    ensures h == Unrecognized <==> forall k :: i <= k < |table| ==> !Answers(table[k], name)
    ensures h != Client
    ensures h.Coding? ==> i <= h.index < |table| && Answers(table[h.index], name)
    ensures h.Coding? ==> forall k :: i <= k < h.index ==> !Answers(table[k], name)
    decreases |table| - i
  {
    if i == |table| then Unrecognized
    else if Answers(table[i], name) then Coding(i)
    else FindFrom(table, name, i + 1)
  }

  /** The first coding that has the name, or has it for its alias, in any case of letters; a missing alias is no
      name. */
  lemma FoundExactly<T>(table: seq<ContentEncoding<T>>, name: string, k: nat)
    ensures FindFrom(table, name, 0) == Coding(k)
       <==> && k < |table|
            && (EqualNoCase(table[k].name, name) || (table[k].alias != "" && EqualNoCase(table[k].alias, name)))
            && forall i :: 0 <= i < k ==>
                 !EqualNoCase(table[i].name, name) && (table[i].alias == "" || !EqualNoCase(table[i].alias, name))
  {
    hide EqualNoCase;
    forall i | 0 <= i < |table|
      ensures Answers(table[i], name)
         <==> EqualNoCase(table[i].name, name) || (table[i].alias != "" && EqualNoCase(table[i].alias, name))
    {
      EqualNoCaseSymmetric(name, table[i].name);
      EqualNoCaseSymmetric(name, table[i].alias);
    }
    var h := FindFrom(table, name, 0);
  }

  method FindEncoding<T>(table: seq<ContentEncoding<T>>, name: string) returns (h: Handler)
    ensures h == FindFrom(table, name, 0)
  {
    for i := 0 to |table|
      invariant FindFrom(table, name, i) == FindFrom(table, name, 0)
    {
      if Answers(table[i], name) { return Coding(i); }
    }
    h := Unrecognized;
  }

  predicate IsChunked(name: string) { EqualNoCase(name, "chunked") }

  /** The names that get a stage: "chunked" is left to the reader when the header may hold it. */
  function Staged(names: seq<string>, maybechunked: bool): seq<string> {
    if names == [] then []
    else (if maybechunked && IsChunked(names[0]) then [] else [names[0]]) + Staged(names[1..], maybechunked)
  }

  /** Stages are pushed one by one, on top of the client. */
  function Pushed<T>(table: seq<ContentEncoding<T>>, stack: seq<Handler>, names: seq<string>): seq<Handler>
    decreases |names|
  {
    if names == [] then stack
    else Pushed(table, [FindFrom(table, names[0], 0)] + (if stack == [] then [Client] else stack), names[1..])
  }

  class SingleRequest<T> {
    const encodings: seq<ContentEncoding<T>>
    var writerStack: seq<Handler>
    var chunk: bool

    constructor (encodings: seq<ContentEncoding<T>>)
      ensures this.encodings == encodings && writerStack == [] && !chunk
    {
      this.encodings := encodings;
      writerStack, chunk := [], false;
    }

    /** Pushes the stages for a comma-separated list of codings. */
    method BuildUnencodingStack(enclist: string, maybechunked: bool)
      modifies this
      ensures writerStack == Pushed(encodings, old(writerStack), Staged(Names(enclist), maybechunked))
      ensures chunk == (old(chunk) || (maybechunked && exists n :: n in Names(enclist) && IsChunked(n)))
    {
      hide Names, TrimStart, TrimEnd, Until, EqualNoCase, Staged, Pushed, FindFrom;
      NothingStaged(encodings, writerStack, maybechunked);
      var i := 0;
      ghost var done: seq<string> := [];
      assert enclist[0..] == enclist;
      var more := true;
      while more
        invariant i <= |enclist| && (!more ==> i == |enclist|)
        invariant done + Names(enclist[i..]) == Names(enclist)
        invariant writerStack == Pushed(encodings, old(writerStack), Staged(done, maybechunked))
        invariant chunk == (old(chunk) || (maybechunked && exists n :: n in done && IsChunked(n)))
        decreases |enclist| - i, more
      {
        var name, end := NextName(enclist, i);
        if maybechunked && |name| == 7 && IsChunked(name) {
          chunk := true;
        } else if name != "" {
          var encoding := FindEncoding(encodings, name);
          if writerStack == [] { writerStack := [Client]; }
          writerStack := [encoding] + writerStack;
        }
        if name != "" {
          IsChunkedLength(name);
          StagedAppend(done, name, maybechunked);
          assert Staged(done, maybechunked) + [] == Staged(done, maybechunked);
          PushedAppend(encodings, old(writerStack), Staged(done, maybechunked), name);
          assert done + ([name] + Names(enclist[end..])) == (done + [name]) + Names(enclist[end..]);
          done := done + [name];
        }
        i := end;
        more := i < |enclist|;
      }
      NoNames();
      assert enclist[|enclist|..] == "";
      assert done == Names(enclist);
    }
  }

  lemma NothingStaged<T>(table: seq<ContentEncoding<T>>, stack: seq<Handler>, maybechunked: bool)
    ensures Pushed(table, stack, Staged([], maybechunked)) == stack
  {
  }

  lemma IsChunkedLength(name: string)
    ensures IsChunked(name) ==> |name| == 7
  {
    assert |Upper(name)| == |name| && |Upper("chunked")| == 7;
  }

  lemma NoNames()
    ensures Names("") == []
  {
  }

  /** Reads one name: separators are skipped, then the text up to a comma counts to its last visible character. */
  method NextName(enclist: string, i: nat) returns (name: string, end: nat)
    requires i <= |enclist|
    ensures i <= end <= |enclist| && (i < |enclist| ==> i < end)
    ensures Names(enclist[i..]) == (if name == "" then [] else [name]) + Names(enclist[end..])
    ensures name == "" ==> end == |enclist|
  {
    hide Names, TrimStart, TrimEnd, Until;
    end := i;
    while end < |enclist| && (IsSpace(enclist[end]) || enclist[end] == ',')
      invariant i <= end <= |enclist|
      invariant Names(enclist[end..]) == Names(enclist[i..])
    {
      SkipSeparator(enclist[end..]);
      assert enclist[end..][1..] == enclist[end + 1..];
      end := end + 1;
    }
    var start := end;
    var namelen := 0;
    TrimEndOfEmpty();
    while end < |enclist| && enclist[end] != ','
      invariant start <= end <= |enclist| && 0 <= namelen <= end - start
      invariant ',' !in enclist[start..end]
      invariant TrimEnd(enclist[start..end]) == enclist[start..start + namelen]
      invariant end > start ==> namelen > 0
    {
      assert enclist[start..end + 1] == enclist[start..end] + [enclist[end]];
      TrimEndStep(enclist[start..end], enclist[end]);
      if !IsSpace(enclist[end]) { namelen := end - start + 1; }
      end := end + 1;
    }
    name := enclist[start..start + namelen];
    NamesOfPiece(enclist, start, end);
    if start == end { assert enclist[start..] == ""; NoNames(); }
  }

  lemma TrimEndOfEmpty()
    ensures TrimEnd("") == ""
  {
  }

  lemma TrimEndStep(s: string, c: char)
    ensures TrimEnd(s + [c]) == if IsSpace(c) then TrimEnd(s) else s + [c]
  {
    assert (s + [c])[..|s|] == s;
  }

  lemma SkipSeparator(s: string)
    requires s != "" && (IsSpace(s[0]) || s[0] == ',')
    ensures Names(s) == Names(s[1..])
  {
    if s[0] != ',' {
      var rest := Until(s[1..], ',');
      assert Until(s, ',') == [s[0]] + rest;
      assert ([s[0]] + rest)[1..] == rest;
      assert s[|rest| + 1..] == s[1..][|rest|..];
      assert |rest| < |s[1..]| ==> s[|rest| + 2..] == s[1..][|rest| + 1..];
    }
  }

  lemma NamesOnce(s: string, piece: string)
    requires piece == Until(s, ',')
    ensures |piece| <= |s|
    ensures Names(s) == (if Trim(piece) == "" then [] else [Trim(piece)])
        + (if |piece| == |s| then [] else Names(s[|piece| + 1..]))
  {
  }

  lemma NothingToTrim(piece: string)
    requires piece != "" ==> !IsSpace(piece[0])
    ensures Trim(piece) == TrimEnd(piece)
  {
  }

  lemma NamesOfPiece(s: string, start: nat, end: nat)
    requires start <= end <= |s| && ',' !in s[start..end] && (end < |s| ==> s[end] == ',')
    requires start < end ==> !IsSpace(s[start])
    ensures Names(s[start..]) == (if TrimEnd(s[start..end]) == "" then [] else [TrimEnd(s[start..end])])
        + Names(s[end..])
  {
    hide Names, Trim, TrimEnd, Until, IsSpace;
    var piece := s[start..end];
    UntilAll(piece, s[end..], ',');
    assert s[start..] == piece + s[end..];
    NamesOnce(s[start..], piece);
    assert piece != "" ==> piece[0] == s[start];
    NothingToTrim(piece);
    if end < |s| {
      assert s[start..][|piece| + 1..] == s[end + 1..];
      SkipSeparator(s[end..]);
      assert s[end..][1..] == s[end + 1..];
    } else {
      assert s[end..] == "";
      NoNames();
    }
  }

  lemma {:induction false} StagedAppend(names: seq<string>, name: string, maybechunked: bool)
    ensures Staged(names + [name], maybechunked)
         == Staged(names, maybechunked) + (if maybechunked && IsChunked(name) then [] else [name])
    decreases |names|
  {
    hide IsChunked;
    if names == [] {
      assert names + [name] == [name];
      assert [name][1..] == [];
    } else {
      assert (names + [name])[1..] == names[1..] + [name];
      StagedAppend(names[1..], name, maybechunked);
    }
  }

  lemma {:induction false} PushedAppend<T>(table: seq<ContentEncoding<T>>, stack: seq<Handler>, names: seq<string>,
      name: string)
    ensures Pushed(table, stack, names + [name])
         == (var below := Pushed(table, stack, names);
             [FindFrom(table, name, 0)] + (if below == [] then [Client] else below))
    decreases |names|
  {
    hide FindFrom;
    if names == [] {
      assert names + [name] == [name] && [name][1..] == [];
    } else {
      assert (names + [name])[1..] == names[1..] + [name];
      PushedAppend(table, [FindFrom(table, names[0], 0)] + (if stack == [] then [Client] else stack), names[1..], name);
    }
  }

  // ---- What the stack means

  function HandlersOf<T>(table: seq<ContentEncoding<T>>, names: seq<string>): seq<Handler> {
    if names == [] then [] else [FindFrom(table, names[0], 0)] + HandlersOf(table, names[1..])
  }

  /** From the top, the stages are those of the names in reverse, and the client is at the bottom. */
  lemma {:induction false} StackIsReversed<T>(table: seq<ContentEncoding<T>>, stack: seq<Handler>, names: seq<string>)
    requires names != []
    ensures Pushed(table, stack, names)
        == Reversed(HandlersOf(table, names)) + (if stack == [] then [Client] else stack)
    decreases |names|
  {
    hide FindFrom;
    if |names| > 1 {
      StackIsReversed(table, [FindFrom(table, names[0], 0)] + (if stack == [] then [Client] else stack), names[1..]);
    } else {
      assert names[1..] == [];
    }
  }

  /** The body coded with each coding in the order listed (section 3.1.2.2 of RFC 7231). */
  function Encoded<T>(table: seq<ContentEncoding<T>>, handlers: seq<Handler>, body: seq<T>): seq<T>
    requires forall h :: h in handlers ==> h.Coding? && h.index < |table|
  {
    if handlers == [] then body
    else Encoded(table, handlers[1..], table[handlers[0].index].encode(body))
  }

  datatype Delivery<T> = Delivered(body: seq<T>) | BadContentEncoding

  /** Writing data into the top of the stack: empty writes stop at once, the deferred error speaks up when reached. */
  function Written<T>(table: seq<ContentEncoding<T>>, stack: seq<Handler>, data: seq<T>): Delivery<T> {
    if data == [] || stack == [] || stack[0] == Client then Delivered(data)
    else if stack[0] == Unrecognized || stack[0].index >= |table| then BadContentEncoding
    else Written(table, stack[1..], table[stack[0].index].decode(data))
  }

  /** The coding can be undone, and does not make nothing of something: an empty body may well have a longer form. */
  ghost predicate Invertible<T(!new)>(e: ContentEncoding<T>) {
    && (forall b :: e.decode(e.encode(b)) == b)
    && (forall b :: e.encode(b) == [] ==> b == [])
  }

  lemma {:induction false} WrittenUndoes<T(!new)>(table: seq<ContentEncoding<T>>, handlers: seq<Handler>,
      stack: seq<Handler>, body: seq<T>)
    requires forall e :: e in table ==> Invertible(e)
    requires forall h :: h in handlers ==> h.Coding? && h.index < |table|
    ensures Written(table, Reversed(handlers) + stack, Encoded(table, handlers, body)) == Written(table, stack, body)
    decreases |handlers|
  {
    if handlers == [] {
      assert Reversed(handlers) + stack == stack;
    } else {
      var h, rest := handlers[0], handlers[1..];
      assert h in handlers && forall g :: g in rest ==> g in handlers;
      var e := table[h.index];
      assert Reversed(handlers) + stack == Reversed(rest) + ([h] + stack);
      WrittenUndoes(table, rest, [h] + stack, e.encode(body));
      assert ([h] + stack)[1..] == stack;
      assert e in table && Invertible(e) && e.decode(e.encode(body)) == body;
    }
  }

  lemma {:induction false} HandlersAreCodings<T>(table: seq<ContentEncoding<T>>, names: seq<string>)
    ensures (forall n :: n in names ==> FindFrom(table, n, 0).Coding?)
            ==> forall h :: h in HandlersOf(table, names) ==> h.Coding? && h.index < |table|
  {
    hide Answers;
    if names != [] {
      HandlersAreCodings(table, names[1..]);
      assert names[0] in names && forall n :: n in names[1..] ==> n in names;
    }
  }

  /** If the server coded a body as its header says, and every coding is known, the client gets the body. */
  lemma ClientGetsTheBody<T(!new)>(table: seq<ContentEncoding<T>>, enclist: string, maybechunked: bool, body: seq<T>)
    requires forall e :: e in table ==> Invertible(e)
    requires forall n :: n in Staged(Names(enclist), maybechunked) ==> FindFrom(table, n, 0).Coding?
    ensures var names := Staged(Names(enclist), maybechunked);
            && (forall h :: h in HandlersOf(table, names) ==> h.Coding? && h.index < |table|)
            && Written(table, Pushed(table, [], names), Encoded(table, HandlersOf(table, names), body))
                == Delivered(body)
  {
    hide Invertible, FindFrom, Names, Staged;
    var names := Staged(Names(enclist), maybechunked);
    HandlersAreCodings(table, names);
    if names != [] {
      StackIsReversed(table, [], names);
      WrittenUndoes(table, HandlersOf(table, names), [Client], body);
    }
  }

  /** An unknown coding makes the transfer fail as soon as data reaches its stage. */
  lemma UnknownCodingIsReported<T>(table: seq<ContentEncoding<T>>, names: seq<string>, name: string, data: seq<T>)
    requires FindFrom(table, name, 0) == Unrecognized && data != []
    ensures Written(table, Pushed(table, [], names + [name]), data) == BadContentEncoding
  {
    hide FindFrom;
    PushedAppend(table, [], names, name);
  }
}
