/** Saving a whole jar to a file, and loading it. */
module CookieStore {
  import opened CookieDomain
  import opened CookieFile
  import opened CookieJar
  import opened CookieOrder
  import opened Cookies
  import opened Lists
  import opened Text
  import opened Wrappers

  // ---- The file

  function HasDomain(): Cookie -> bool { (c: Cookie) => c.domain.Some? }

  function NewerFirst(): (Cookie, Cookie) -> bool { (c: Cookie, d: Cookie) => c.creationtime > d.creationtime }

  /** The cookies that are saved: those not expired that have a domain, newest first. */
  ghost predicate SavedFrom(j: Jar, now: int, saved: seq<Cookie>) {
    && multiset(saved) == multiset(Filter(Flat(ExpireAll(j, now).buckets), HasDomain()))
    && Pairwise(saved, NewerFirst())
  }

  /** The comment at the top of the file; an empty line follows. */
  function Preamble(): seq<string> {
    ["# Netscape HTTP Cookie File", "# https://curl.se/docs/http-cookies.html",
     "# This file was generated by " + "libcurl! Edit at your own risk."]
  }

  function Ended(lines: seq<string>): string {
    if lines == [] then "" else lines[0] + ("\n" + Ended(lines[1..]))
  }

  function Formats(cs: seq<Cookie>): (lines: seq<string>)
    ensures |lines| == |cs| && forall i :: 0 <= i < |cs| ==> lines[i] == Format(cs[i])
  {
    if cs == [] then [] else [Format(cs[0])] + Formats(cs[1..])
  }

  function FileText(saved: seq<Cookie>): string { Ended(Preamble() + ([""] + Formats(saved))) }

  /** What is made of the text of a `Set-Cookie:` header. */
  type Headers = string -> Option<Line>

  /** A line read from a file: a header line goes to one parser, any other to the other; lines that do not fit the
      buffer are passed over. */
  function FileLine(line: string, headers: Headers): (r: seq<Line>)
    ensures |r| <= 1
  {
    if |line| + 1 > MAX_COOKIE_LINE - 1 then []
    else
      var parsed := if HeaderLine(line) then headers(SkipBlanks(line[|HEADER|..] + "\n"))
                    else ParseLine(SkipBlanks(line + "\n"), true);
      if parsed.Some? then [parsed.value] else []
  }

  /** A line of 4999 characters or more does not fit; of a shorter one the parser decides. */
  lemma LinesFit(line: string, headers: Headers)
    ensures |line| >= 4999 ==> FileLine(line, headers) == []
    ensures |line| < 4999 && !HeaderLine(line) ==>
              (FileLine(line, headers) == [] <==> ParseLine(SkipBlanks(line + "\n"), true).None?)
  {
    hide ParseLine, SkipBlanks, HeaderLine;
  }

  /** The cookies of a file; a last line without an end is passed over. */
  function ReadFile(text: string, headers: Headers): seq<Line>
    decreases |text|
  {
    var line := Until(text, '\n');
    if |line| == |text| then [] else FileLine(line, headers) + ReadFile(text[|line| + 1..], headers)
  }

  function ReadFileIf(file: Option<string>, headers: Headers): Option<seq<Line>> {
    if file.Some? then Some(ReadFile(file.value, headers)) else None
  }

  lemma NextLine(line: string, rest: string, headers: Headers)
    requires '\n' !in line
    ensures ReadFile(line + ("\n" + rest), headers) == FileLine(line, headers) + ReadFile(rest, headers)
  {
    hide FileLine;
    var text := line + ("\n" + rest);
    UntilAll(line, "\n" + rest, '\n');
    assert text[|line| + 1..] == rest;
  }

  predicate IsComment(line: string) { |line| < 100 && "# " <= line && '\n' !in line }

  lemma PreambleIsComments()
    ensures forall line :: line in Preamble() ==> IsComment(line)
  {
  }

  lemma {:induction false} CommentsAreSkipped(comments: seq<string>, lines: seq<string>, headers: Headers)
    requires forall line :: line in comments ==> IsComment(line)
    ensures ReadFile(Ended(comments + lines), headers) == ReadFile(Ended(lines), headers)
    decreases |comments|
  {
    hide ReadFile, IsComment;
    if comments == [] {
      assert comments + lines == lines;
    } else {
      assert comments[0] in comments && (comments + lines)[1..] == comments[1..] + lines;
      CommentIsSkipped(comments[0], Ended(comments[1..] + lines), headers);
      CommentsAreSkipped(comments[1..], lines, headers);
    }
  }

  lemma CommentIsSkipped(line: string, rest: string, headers: Headers)
    requires IsComment(line)
    ensures ReadFile(line + ("\n" + rest), headers) == ReadFile(rest, headers)
  {
    hide ReadFile, TakeFields;
    NextLine(line, rest, headers);
    SkipBlanksStop(line + "\n");
    assert (line + "\n")[0] == '#' && (line + "\n")[1] == ' ' && HTTP_ONLY[1] == 'H';
  }

  lemma EmptyIsSkipped(rest: string, headers: Headers)
    ensures ReadFile("" + ("\n" + rest), headers) == ReadFile(rest, headers)
  {
    hide ReadFile;
    NextLine("", rest, headers);
    SkipBlanksStop("\n");
    assert "" + "\n" == "\n";
    EmptyIsNoCookie();
  }

  lemma EmptyIsNoCookie()
    ensures ParseLine("\n", true).None?
  {
    assert CutLine("\n") == "";
  }

  // ---- Writing the file

  /** The libc sort by age: each cookie before the older ones. */
  method SortNewest(cs: seq<Cookie>) returns (sorted: seq<Cookie>)
    requires Pairwise(cs, DifferentTimes())
    ensures multiset(sorted) == multiset(cs) && Pairwise(sorted, NewerFirst())
  {
    hide Pairwise, Insert;
    sorted := [];
    assert Pairwise(sorted, NewerFirst()) by { NoneToOrder(); }
    for n := 0 to |cs|
      invariant multiset(sorted) == multiset(cs[..n]) && Pairwise(sorted, NewerFirst())
    {
      var c, k := cs[n], 0;
      while k < |sorted| && sorted[k].creationtime > c.creationtime
        invariant 0 <= k <= |sorted|
        invariant forall i :: 0 <= i < k ==> sorted[i].creationtime > c.creationtime
      {
        k := k + 1;
      }
      TimeIsNew(cs, n, sorted);
      InsertNewer(sorted, k, c);
      MultisetInsert(sorted, k, c);
      assert cs[..n + 1] == cs[..n] + [c];
      sorted := Insert(sorted, k, c);
    }
    assert cs[..|cs|] == cs;
  }

  lemma NoneToOrder()
    ensures Pairwise([], NewerFirst())
  {
  }

  lemma InsertNewer(cs: seq<Cookie>, k: nat, c: Cookie)
    requires k <= |cs| && Pairwise(cs, NewerFirst()) && forall d :: d in cs ==> d.creationtime != c.creationtime
    requires forall i :: 0 <= i < k ==> cs[i].creationtime > c.creationtime
    requires k < |cs| ==> cs[k].creationtime <= c.creationtime
    ensures Pairwise(Insert(cs, k, c), NewerFirst())
  {
    forall i | k <= i < |cs| ensures c.creationtime > cs[i].creationtime {
      assert cs[i] in cs && (k < i ==> NewerFirst()(cs[k], cs[i]));
    }
    var t := Insert(cs, k, c);
    forall i, j | 0 <= i < j < |t| ensures NewerFirst()(t[i], t[j]) {
      var i', j' := if i < k then i else i - 1, if j < k then j else j - 1;
      if i != k && j != k { assert NewerFirst()(cs[i'], cs[j']); }
    }
  }

  /** The file with these cookies. */
  method WriteFile(saved: seq<Cookie>) returns (text: string)
    ensures text == FileText(saved)
  {
    var lines := Preamble() + ([""] + Formats(saved));
    text := "";
    for i := 0 to |lines|
      invariant text + Ended(lines[i..]) == FileText(saved)
    {
      assert lines[i..][1..] == lines[i + 1..];
      assert text + (lines[i] + ("\n" + Ended(lines[i + 1..]))) == (text + lines[i] + "\n") + Ended(lines[i + 1..]);
      text := text + lines[i] + "\n";
    }
    assert lines[|lines|..] == [] && text + "" == text;
  }

  // ---- Lines that are read back

  /** A cookie that its line gives back, and whose line is no header line. */
  predicate Kept(c: Cookie) { Storable(c) && !HeaderLine(Format(c)) }

  lemma KeptIsRead(c: Cookie, rest: string, headers: Headers)
    requires Kept(c)
    ensures var parsed := ParseLine(SkipBlanks(Format(c) + "\n"), true);
            && parsed.Some? && SameContent(parsed.value.parsed, c)
            && Admissible(false, false, parsed.value.parsed, parsed.value.prefixes)
            && ReadFile(Format(c) + ("\n" + rest), headers) == [parsed.value] + ReadFile(rest, headers)
  {
    hide ReadFile, ParseLine, SkipBlanks, Format;
    StorableReadsBack(c);
    StorableIsClean(c);
    LineIsDelivered(c);
    FormatHasNoEnd(c);
    StorableFits(c);
    NextLine(Format(c), rest, headers);
  }

  lemma StorableFits(c: Cookie)
    requires Storable(c)
    ensures |Format(c)| + 1 <= MAX_COOKIE_LINE - 1
  {
  }

  lemma FormatHasNoEnd(c: Cookie)
    requires CleanCookie(c)
    ensures '\n' !in Format(c)
  {
    hide DomainField, OtherFields, Join;
    JoinIsClean([DomainField(c)] + OtherFields(c));
  }

  /** The lines give back the cookies, in order. */
  ghost predicate GiveBack(lines: seq<Line>, saved: seq<Cookie>) {
    && |lines| == |saved|
    && forall i :: 0 <= i < |saved| ==> SameContent(lines[i].parsed, saved[i])
                                        && Admissible(false, false, lines[i].parsed, lines[i].prefixes)
  }

  lemma {:induction false} LinesAreRead(saved: seq<Cookie>, headers: Headers)
    requires forall c :: c in saved ==> Kept(c)
    ensures GiveBack(ReadFile(Ended(Formats(saved)), headers), saved)
    decreases |saved|
  {
    hide ReadFile, ParseLine, SkipBlanks, Format, Kept, SameContent, Admissible;
    if saved == [] {
      NothingToRead(headers);
    } else {
      assert saved[0] in saved && Formats(saved)[1..] == Formats(saved[1..]);
      KeptIsRead(saved[0], Ended(Formats(saved[1..])), headers);
      LinesAreRead(saved[1..], headers);
    }
  }

  lemma NothingToRead(headers: Headers)
    ensures ReadFile("", headers) == []
  {
  }

  lemma FileIsRead(saved: seq<Cookie>, headers: Headers)
    requires forall c :: c in saved ==> Kept(c)
    ensures GiveBack(ReadFile(FileText(saved), headers), saved)
  {
    hide ReadFile, Preamble, Kept, GiveBack;
    PreambleIsComments();
    CommentsAreSkipped(Preamble(), [""] + Formats(saved), headers);
    assert ([""] + Formats(saved))[1..] == Formats(saved);
    EmptyIsSkipped(Ended(Formats(saved)), headers);
    LinesAreRead(saved, headers);
  }

  // ---- Loading

  /** A saved cookie as it stands in the jar after it was read as the n-th. */
  function Reloaded(c: Cookie, n: nat): Cookie { c.(livecookie := false, creationtime := n) }

  function ReloadedAll(saved: seq<Cookie>): (r: seq<Cookie>)
    ensures |r| == |saved| && forall i :: 0 <= i < |saved| ==> r[i] == Reloaded(saved[i], i + 1)
  {
    seq(|saved|, i requires 0 <= i < |saved| => Reloaded(saved[i], i + 1))
  }

  lemma OtherKeyIsSkipped(was: Cookie, co: Cookie)
    requires !SameKey(was, co)
    ensures Judge(was, co, true) == Skip
  {
  }

  lemma ReloadedKeys(c: Cookie, d: Cookie, m: nat, n: nat)
    ensures SameKey(Reloaded(c, m), Reloaded(d, n)) == SameKey(c, d)
  {
  }

  /** What the jar is while a file is read: the first n cookies are in it, numbered as they came. */
  ghost predicate Loading(j: Jar, saved: seq<Cookie>, n: nat) {
    && n <= |saved| && Consistent(j) && !j.running && !j.newsession && j.lastct == n && j.numcookies == n
    && multiset(Flat(j.buckets)) == multiset(ReloadedAll(saved[..n]))
  }

  lemma LoadsNext(j: Jar, saved: seq<Cookie>, n: nat, line: Line)
    requires n < |saved| && Loading(j, saved, n) && Pairwise(saved, DifferentKeys())
    requires SameContent(line.parsed, saved[n]) && Admissible(false, false, line.parsed, line.prefixes)
    ensures Loading(Apply(j, Add(line.parsed, line.prefixes, true, true, true, 0)), saved, n + 1)
  {
    hide CookieHash, Flat, SameKey, Judge, Place, Consistent, Store;
    var op := Add(line.parsed, line.prefixes, true, true, true, 0);
    var co := Stamp(j, line.parsed);
    assert co == Reloaded(saved[n], n + 1);
    var j' := j.(lastct := j.lastct + 1);
    LaterConsistent(j);
    NoneMet(j, saved, n, co);
    StoreConserves(j', co, Appended);
    AppendCounts(j', co);
    ApplyConsistent(j, op);
    assert ReloadedAll(saved[..n + 1]) == ReloadedAll(saved[..n]) + [co];
  }

  lemma AppendCounts(j: Jar, co: Cookie)
    requires |j.buckets| == COOKIE_HASH_SIZE
    ensures var j' := Store(j, co, Appended);
            && j'.numcookies == j.numcookies + 1 && j'.lastct == j.lastct && j'.running == j.running
            && j'.newsession == j.newsession
  {
  }

  /** No cookie read so far stands in the way of the next. */
  lemma NoneMet(j: Jar, saved: seq<Cookie>, n: nat, co: Cookie)
    requires n < |saved| && Pairwise(saved, DifferentKeys()) && co == Reloaded(saved[n], n + 1)
    requires |j.buckets| == COOKIE_HASH_SIZE && multiset(Flat(j.buckets)) == multiset(ReloadedAll(saved[..n]))
    ensures Place(j.buckets[CookieHash(co.domain)], co, true, 0) == Appended
  {
    hide Judge, CookieHash, Flat, SameKey;
    var bucket := j.buckets[CookieHash(co.domain)];
    forall i | 0 <= i < |bucket| ensures Judge(bucket[i], co, true) == Skip {
      var c := bucket[i];
      InFlat(j.buckets, c);
      assert c in multiset(ReloadedAll(saved[..n]));
      var k :| 0 <= k < n && ReloadedAll(saved[..n])[k] == c;
      assert DifferentKeys()(saved[k], saved[n]);
      ReloadedKeys(saved[k], saved[n], k + 1, n + 1);
      OtherKeyIsSkipped(c, co);
    }
  }

  lemma {:induction false} LoadsAll(j: Jar, saved: seq<Cookie>, n: nat, lines: seq<Line>)
    requires Loading(j, saved, n) && GiveBack(lines, saved) && Pairwise(saved, DifferentKeys())
    ensures Loading(Run(j, AddsOf(lines)[n..]), saved, |saved|)
    decreases |saved| - n
  {
    hide Loading, Apply, SameContent, Admissible;
    if n < |saved| {
      var ops := AddsOf(lines)[n..];
      assert ops[1..] == AddsOf(lines)[n + 1..];
      SizesOf(j, saved, n);
      LoadsNext(j, saved, n, lines[n]);
      LoadsAll(Apply(j, ops[0]), saved, n + 1, lines);
    } else {
      SizesOf(j, saved, n);
      assert AddsOf(lines)[n..] == [];
      assert n == |saved|;
    }
  }

  lemma SizesOf(j: Jar, saved: seq<Cookie>, n: nat)
    requires Loading(j, saved, n)
    ensures |j.buckets| == COOKIE_HASH_SIZE && n <= |saved|
  {
  }

  // ---- Saving and loading

  function Loaded(saved: seq<Cookie>, headers: Headers, now: int): (j: Jar)
    ensures |j.buckets| == COOKIE_HASH_SIZE
  {
    Run(EmptyJar(), LoadOf(ReadFileIf(Some(FileText(saved)), headers), false, now))
  }

  /** The cookies saved are in the jar, not expired, and have a domain. */
  lemma SavedAre(j: Jar, now: int, saved: seq<Cookie>)
    requires Consistent(j) && SavedFrom(j, now, saved)
    ensures forall c :: c in saved ==> c in Flat(j.buckets) && NotExpired(now)(c) && c.domain.Some?
  {
    hide Flat, Filter;
    KeepInvariants(j, NotExpired(now));
    forall c | c in saved ensures c in Flat(j.buckets) && NotExpired(now)(c) && c.domain.Some? {
      assert c in multiset(saved);
    }
  }

  lemma SavedKeys(j: Jar, now: int, saved: seq<Cookie>)
    requires Consistent(j) && NoDuplicates(j) && SavedFrom(j, now, saved)
    ensures Pairwise(saved, DifferentKeys())
  {
    hide Flat, SameKey;
    SavedAre(j, now, saved);
    var f := Flat(j.buckets);
    forall i, k | 0 <= i < k < |saved| ensures DifferentKeys()(saved[i], saved[k]) {
      assert NewerFirst()(saved[i], saved[k]) && saved[i] in f && saved[k] in f;
      var p :| 0 <= p < |f| && f[p] == saved[i];
      var q :| 0 <= q < |f| && f[q] == saved[k];
      assert if p < q then DifferentKeys()(f[p], f[q]) else DifferentKeys()(f[q], f[p]);
      SameKeySymmetric(saved[i], saved[k]);
    }
  }

  lemma NothingLoaded(saved: seq<Cookie>)
    ensures Loading(EmptyJar(), saved, 0) && Apply(EmptyJar(), StartLoad(false)) == EmptyJar()
  {
    EmptyJarConsistent();
    FlatEmpty(COOKIE_HASH_SIZE);
    assert saved[..0] == [];
  }

  lemma BeforeTheEnd(saved: seq<Cookie>, headers: Headers, now: int)
    requires (forall c :: c in saved ==> Kept(c)) && Pairwise(saved, DifferentKeys())
    ensures var before := Run(EmptyJar(), [StartLoad(false)] + AddsOf(ReadFile(FileText(saved), headers)));
            Loading(before, saved, |saved|) && Loaded(saved, headers, now) == Apply(before, FinishLoad(true, now))
  {
    hide Loading, Apply, ReadFile, FileText, Kept, GiveBack;
    var lines := ReadFile(FileText(saved), headers);
    FileIsRead(saved, headers);
    NothingLoaded(saved);
    LoadsAll(EmptyJar(), saved, 0, lines);
    var ops := [StartLoad(false)] + AddsOf(lines);
    assert ops[1..] == AddsOf(lines) == AddsOf(lines)[0..];
    RunLast(EmptyJar(), ops, FinishLoad(true, now));
  }

  /** A jar whose cookies with a domain are storable, saved and loaded into an empty jar: the same cookies are there
      with the same contents, nothing else, and the older a cookie was the newer it is now. */
  lemma SavedComesBack(j: Jar, now: int, saved: seq<Cookie>, headers: Headers)
    requires Consistent(j) && NoDuplicates(j) && SavedFrom(j, now, saved) && forall c :: c in saved ==> Kept(c)
    ensures var j' := Loaded(saved, headers, now);
            && Consistent(j') && j'.running && j'.numcookies == |saved|
            && multiset(Flat(j'.buckets)) == multiset(ReloadedAll(saved))
    ensures forall i, k :: 0 <= i < k < |saved| ==>
              saved[i].creationtime > saved[k].creationtime
              && ReloadedAll(saved)[i].creationtime < ReloadedAll(saved)[k].creationtime
  {
    hide Loading, Loaded, Apply, Kept, SavedFrom, Consistent, NoDuplicates;
    SavedAre(j, now, saved);
    SavedKeys(j, now, saved);
    BeforeTheEnd(saved, headers, now);
    var before := Run(EmptyJar(), [StartLoad(false)] + AddsOf(ReadFile(FileText(saved), headers)));
    NoneExpires(before, saved, now);
    InOrderOfAge(j, now, saved);
  }

  lemma NoneExpires(j: Jar, saved: seq<Cookie>, now: int)
    requires Loading(j, saved, |saved|) && forall c :: c in saved ==> NotExpired(now)(c)
    ensures |j.buckets| == COOKIE_HASH_SIZE
    ensures var j' := Apply(j, FinishLoad(true, now));
            && Consistent(j') && j'.running && j'.numcookies == |saved|
            && multiset(Flat(j'.buckets)) == multiset(ReloadedAll(saved))
  {
    hide Flat, Filter, CookieHash;
    assert saved[..|saved|] == saved;
    KeepInvariants(j, NotExpired(now));
    forall c | c in Flat(j.buckets) ensures NotExpired(now)(c) {
      assert c in multiset(ReloadedAll(saved));
      var k :| 0 <= k < |saved| && ReloadedAll(saved)[k] == c;
      assert saved[k] in saved;
    }
    FilterAll(Flat(j.buckets), NotExpired(now));
  }

  lemma InOrderOfAge(j: Jar, now: int, saved: seq<Cookie>)
    requires SavedFrom(j, now, saved)
    ensures forall i, k :: 0 <= i < k < |saved| ==> saved[i].creationtime > saved[k].creationtime
  {
    forall i, k | 0 <= i < k < |saved| ensures saved[i].creationtime > saved[k].creationtime {
      assert NewerFirst()(saved[i], saved[k]);
    }
  }

  /** Saved once more, the cookies come in the reverse order: it takes a second saving and loading to restore it. */
  lemma SecondSaveIsReversed(j: Jar, now: int, saved: seq<Cookie>, again: seq<Cookie>, headers: Headers)
    requires Consistent(j) && NoDuplicates(j) && SavedFrom(j, now, saved) && forall c :: c in saved ==> Kept(c)
    requires SavedFrom(Loaded(saved, headers, now), now, again)
    ensures |again| == |saved|
    ensures forall i :: 0 <= i < |saved| ==> SameContent(again[i], saved[|saved| - 1 - i])
  {
    hide Flat, Filter, Loaded, Kept, SameKey, CookieHash, Reversed, Pairwise, SavedFrom;
    var all := ReloadedAll(saved);
    SavedAre(j, now, saved);
    SavedComesBack(j, now, saved, headers);
    AllAreSavedAgain(Loaded(saved, headers, now), now, saved, again);
    ReversedMultiset(all);
    ReversedAt(all);
    OldestIsNewest(saved);
    ArrangedOnce(again, Reversed(all), NewerFirst());
  }

  lemma OldestIsNewest(saved: seq<Cookie>)
    ensures Pairwise(Reversed(ReloadedAll(saved)), NewerFirst())
  {
    hide Reversed;
    ReversedAt(ReloadedAll(saved));
  }

  lemma AllAreSavedAgain(j: Jar, now: int, saved: seq<Cookie>, again: seq<Cookie>)
    requires Consistent(j) && multiset(Flat(j.buckets)) == multiset(ReloadedAll(saved)) && SavedFrom(j, now, again)
    requires forall c :: c in saved ==> NotExpired(now)(c) && c.domain.Some?
    ensures multiset(again) == multiset(ReloadedAll(saved)) && Pairwise(again, NewerFirst())
  {
    hide Flat, Filter, Pairwise;
    var all := ReloadedAll(saved);
    KeepInvariants(j, NotExpired(now));
    forall c | c in Flat(j.buckets) ensures NotExpired(now)(c) && HasDomain()(c) {
      assert c in multiset(all);
      var k :| 0 <= k < |saved| && all[k] == c;
      assert saved[k] in saved;
    }
    FilterAll(Flat(j.buckets), NotExpired(now));
    FilterAll(Flat(j.buckets), HasDomain());
  }
}
