/**
  The changed-file scope of a scan (thyn_security_toolchain/changed.py): the paginated list of a
  pull request's files, the fallbacks that widen to a full scan, and the list file handed from
  one job to the next.
 */
module Changed {
  import opened Wrappers
  import opened Text
  import opened Seqs

  /** `ALL`, or a concrete list. */
  datatype Scope = All | Files(paths: seq<string>)

  const SENTINEL := "ALL"

  // ------------------------------------------------------------------- the files API

  /** An entry of the listing; a missing name is an empty one. */
  datatype Item = Item(filename: string, previous: string)

  /** What one request comes back with. */
  datatype Page = Failure | NotAList | Batch(items: seq<Item>)

  const PER_PAGE := 100
  const MAX_PAGES := 30

  function NamesIn(item: Item): seq<string> {
    (if item.filename != "" then [item.filename] else []) + (if item.previous != "" then [item.previous] else [])
  }

  function NamesOf(items: seq<Item>): seq<string> {
    if items == [] then [] else NamesOf(items[..|items| - 1]) + NamesIn(items[|items| - 1])
  }

  function After(files: seq<string>, rest: Option<seq<string>>): Option<seq<string>> {
    if rest.Some? then Some(files + rest.value) else None
  }

  /** What the loop collects from `page` on, if it does not give up. */
  function PagesFrom(serve: nat -> Page, page: nat): Option<seq<string>>
    decreases MAX_PAGES + 1 - page
  {
    if page > MAX_PAGES then None
    else
      match serve(page)
      case Failure => None
      case NotAList => None
      case Batch(items) =>
        if |items| < PER_PAGE then Some(NamesOf(items))
        else After(NamesOf(items), PagesFrom(serve, page + 1))
  }

  /** The loop over one page. */
  method AppendNames(files: seq<string>, items: seq<Item>) returns (r: seq<string>)
    ensures r == files + NamesOf(items)
  {
    r := files;
    var i := 0;
    while i < |items|
      invariant 0 <= i <= |items|
      invariant r == files + NamesOf(items[..i])
    {
      assert items[..i + 1][..i] == items[..i];
      var item := items[i];
      if item.filename != "" {
        r := r + [item.filename];
      }
      if item.previous != "" {
        r := r + [item.previous];
      }
      i := i + 1;
    }
    Seqs.All(items);
  }

  /** `_api_pr_files`, with the number of requests it made. */
  method ApiPrFiles(serve: nat -> Page) returns (files: Option<seq<string>>, requests: nat)
    ensures files == PagesFrom(serve, 1)
    ensures requests <= MAX_PAGES
  {
    var collected: seq<string> := [];
    var page := 1;
    requests := 0;
    AfterNothing(PagesFrom(serve, 1));
    while true
      invariant 1 <= page <= MAX_PAGES && requests == page - 1
      invariant PagesFrom(serve, 1) == After(collected, PagesFrom(serve, page))
      decreases MAX_PAGES - page
    {
      var reply := serve(page);
      requests := requests + 1;
      if !reply.Batch? {
        return None, requests;
      }
      ghost var before := collected;
      collected := AppendNames(collected, reply.items);
      if |reply.items| < PER_PAGE {
        return Some(collected), requests;
      }
      page := page + 1;
      if page > MAX_PAGES {
        return None, requests;
      }
      AfterJoins(before, NamesOf(reply.items), PagesFrom(serve, page));
    }
  }

  lemma AfterJoins(a: seq<string>, b: seq<string>, rest: Option<seq<string>>)
    ensures After(a, After(b, rest)) == After(a + b, rest)
  {
    if rest.Some? {
      assert a + (b + rest.value) == a + b + rest.value;
    }
  }

  lemma AfterNothing(rest: Option<seq<string>>)
    ensures After([], rest) == rest
  {
    if rest.Some? {
      assert [] + rest.value == rest.value;
    }
  }

  /** The items of the first `n` pages, one after the other. */
  function Served(serve: nat -> Page, n: nat): seq<Item>
    requires forall p: nat :: 1 <= p <= n ==> serve(p).Batch?
  {
    if n == 0 then [] else Served(serve, n - 1) + serve(n).items
  }

  /** Page `n` is the last one: the only page so far that is not full. */
  ghost predicate EndsAt(serve: nat -> Page, n: nat) {
    && 1 <= n
    && (forall p: nat :: 1 <= p <= n ==> serve(p).Batch?)
    && (forall p: nat :: 1 <= p < n ==> |serve(p).items| >= PER_PAGE)
    && |serve(n).items| < PER_PAGE
  }

  lemma {:induction false} NamesOfJoins(a: seq<Item>, b: seq<Item>)
    ensures NamesOf(a + b) == NamesOf(a) + NamesOf(b)
  {
    if b == [] {
      assert a + b == a;
    } else {
      var init, last := b[..|b| - 1], b[|b| - 1];
      NamesOfJoins(a, init);
      assert (a + b)[..|a + b| - 1] == a + init && (a + b)[|a + b| - 1] == last;
      assert NamesOf(a) + NamesOf(init) + NamesIn(last) == NamesOf(a) + (NamesOf(init) + NamesIn(last));
    }
  }

  lemma {:induction false} PagesFromStep(serve: nat -> Page, n: nat, page: nat)
    requires EndsAt(serve, n) && 1 <= page <= n
    requires page <= MAX_PAGES + 1
    ensures PagesFrom(serve, 1) == After(NamesOf(Served(serve, page - 1)), PagesFrom(serve, page))
    decreases page
  {
    if page > 1 {
      PagesFromStep(serve, n, page - 1);
      NamesOfJoins(Served(serve, page - 2), serve(page - 1).items);
      AfterJoins(NamesOf(Served(serve, page - 2)), NamesOf(serve(page - 1).items), PagesFrom(serve, page));
    } else {
      AfterNothing(PagesFrom(serve, 1));
    }
  }

  /**
    Whatever the server does: the answer is concrete exactly when a page that is not full ends the
    listing within thirty pages of well-formed replies, and then it names every current and
    previous file of all of them, in order.
   */
  lemma AnswerIsWhole(serve: nat -> Page)
    ensures PagesFrom(serve, 1).Some? <==> exists n: nat :: n <= MAX_PAGES && EndsAt(serve, n)
    ensures forall n: nat :: n <= MAX_PAGES && EndsAt(serve, n) ==>
              PagesFrom(serve, 1) == Some(NamesOf(Served(serve, n)))
  {
    forall n: nat | n <= MAX_PAGES && EndsAt(serve, n)
      ensures PagesFrom(serve, 1) == Some(NamesOf(Served(serve, n)))
    {
      PagesFromStep(serve, n, n);
      NamesOfJoins(Served(serve, n - 1), serve(n).items);
    }
    if PagesFrom(serve, 1).Some? {
      var n := LastPage(serve, 1);
    }
  }

  lemma {:induction false} LastPage(serve: nat -> Page, page: nat) returns (n: nat)
    requires 1 <= page && PagesFrom(serve, page).Some?
    requires forall p: nat :: 1 <= p < page ==> serve(p).Batch? && |serve(p).items| >= PER_PAGE
    ensures n <= MAX_PAGES && EndsAt(serve, n)
    decreases MAX_PAGES + 1 - page
  {
    if |serve(page).items| < PER_PAGE {
      n := page;
    } else {
      n := LastPage(serve, page + 1);
    }
  }

  function Min(a: int, b: int): int {
    if a <= b then a else b
  }

  /** An API that serves a listing in pages of a hundred. */
  function Pages(listing: seq<Item>): nat -> Page {
    (page: nat) => if page == 0 then Failure
            else Batch(listing[Min(PER_PAGE * (page - 1), |listing|)..Min(PER_PAGE * page, |listing|)])
  }

  /** A server that may fail on any page, but what it serves is the page of this listing. */
  ghost predicate Honest(serve: nat -> Page, listing: seq<Item>) {
    forall p: nat :: serve(p).Batch? ==> serve(p) == Pages(listing)(p)
  }

  ghost predicate Serves(serve: nat -> Page, from: nat, to: nat) {
    forall p: nat :: from <= p <= to ==> serve(p).Batch?
  }

  /** The listing is short enough, and every page up to the first that is not full is served. */
  ghost predicate ServesWhole(serve: nat -> Page, listing: seq<Item>) {
    |listing| < PER_PAGE * MAX_PAGES && Serves(serve, 1, |listing| / PER_PAGE + 1)
  }

  lemma PageOf(serve: nat -> Page, listing: seq<Item>, page: nat)
    requires Honest(serve, listing) && serve(page).Batch?
    requires 1 <= page && PER_PAGE * (page - 1) <= |listing|
    ensures serve(page).items
         == listing[PER_PAGE * (page - 1)..if |listing| < PER_PAGE * page then |listing| else PER_PAGE * page]
  {
    assert serve(page) == Pages(listing)(page);
  }

  lemma NamesFrom(listing: seq<Item>, from: nat, to: nat)
    requires from <= to <= |listing|
    ensures NamesOf(listing[from..]) == NamesOf(listing[from..to]) + NamesOf(listing[to..])
  {
    NamesOfJoins(listing[from..to], listing[to..]);
    assert listing[from..to] + listing[to..] == listing[from..];
  }

  lemma ServesStep(serve: nat -> Page, from: nat, to: nat)
    requires serve(from).Batch?
    ensures Serves(serve, from, to) <==> Serves(serve, from + 1, to)
  {
    if Serves(serve, from + 1, to) {
      forall p: nat | from <= p <= to
        ensures serve(p).Batch?
      {
        if p != from {
          assert from + 1 <= p <= to;
        }
      }
    }
  }

  /** What the loop makes of a listing whose last page is `last`, from `page` on. */
  ghost function ListedFrom(serve: nat -> Page, listing: seq<Item>, page: nat, last: nat): Option<seq<string>>
    requires 1 <= page && PER_PAGE * (page - 1) <= |listing|
  {
    if last <= MAX_PAGES && Serves(serve, page, last) then Some(NamesOf(listing[PER_PAGE * (page - 1)..])) else None
  }

  lemma FullPage(serve: nat -> Page, listing: seq<Item>, page: nat, last: nat)
    requires Honest(serve, listing) && serve(page).Batch?
    requires 1 <= page < last && PER_PAGE * (last - 1) <= |listing|
    ensures |serve(page).items| == PER_PAGE
    ensures ListedFrom(serve, listing, page, last)
         == After(NamesOf(serve(page).items), ListedFrom(serve, listing, page + 1, last))
  {
    PageOf(serve, listing, page);
    NamesFrom(listing, PER_PAGE * (page - 1), PER_PAGE * page);
    ServesStep(serve, page, last);
  }

  lemma ShortPage(serve: nat -> Page, listing: seq<Item>, page: nat)
    requires Honest(serve, listing) && serve(page).Batch?
    requires 1 <= page <= MAX_PAGES && PER_PAGE * (page - 1) <= |listing| < PER_PAGE * page
    ensures |serve(page).items| < PER_PAGE
    ensures ListedFrom(serve, listing, page, page) == Some(NamesOf(serve(page).items))
  {
    PageOf(serve, listing, page);
    assert serve(page).items == listing[PER_PAGE * (page - 1)..];
    assert Serves(serve, page, page);
  }

  lemma {:induction false} HonestPages(serve: nat -> Page, listing: seq<Item>, page: nat, last: nat)
    requires Honest(serve, listing)
    requires 1 <= page <= last && PER_PAGE * (last - 1) <= |listing| < PER_PAGE * last
    requires page <= MAX_PAGES + 1
    ensures PagesFrom(serve, page) == ListedFrom(serve, listing, page, last)
    decreases MAX_PAGES + 1 - page
  {
    if page <= MAX_PAGES && serve(page).Batch? {
      if page < last {
        FullPage(serve, listing, page, last);
        HonestPages(serve, listing, page + 1, last);
      } else {
        ShortPage(serve, listing, page);
      }
    }
  }

  /**
    From a server that may fail on any page, a listing comes back whole and in order exactly when
    it has fewer than 3000 items and each page it takes is served; else there is no answer.
   */
  lemma ListingComesBackWhole(serve: nat -> Page, listing: seq<Item>)
    requires Honest(serve, listing)
    ensures PagesFrom(serve, 1) == if ServesWhole(serve, listing) then Some(NamesOf(listing)) else None
  {
    HonestPages(serve, listing, 1, |listing| / PER_PAGE + 1);
    assert listing[0..] == listing;
  }

  // ------------------------------------------------------------------- the scope of a pull request

  /** `_pull_scope`; `git` is what the diff fallback would answer. */
  ghost function PullScope(
      number: int, hasToken: bool, hasRepo: bool, serve: nat -> Page, git: Option<seq<string>>): Scope
  {
    if number > 0 && hasToken && hasRepo && PagesFrom(serve, 1).Some?
    then Files(Sorted(Elements(PagesFrom(serve, 1).value)))
    else if git.Some? then Files(Sorted(Elements(git.value)))
    else All
  }

  method ResolvePullScope(number: int, hasToken: bool, hasRepo: bool, serve: nat -> Page, git: Option<seq<string>>)
    returns (scope: Scope)
    ensures scope == PullScope(number, hasToken, hasRepo, serve, git)
  {
    if number > 0 && hasToken && hasRepo {
      var files, _ := ApiPrFiles(serve);
      if files.Some? {
        var names := SortSet(set f | f in files.value);
        return Files(names);
      }
    }
    if git.Some? {
      var names := SortSet(set f | f in git.value);
      return Files(names);
    }
    return All;
  }

  lemma {:induction false} NamesOfHas(items: seq<Item>, item: Item, name: string)
    requires item in items && name != "" && (name == item.filename || name == item.previous)
    ensures name in NamesOf(items)
  {
    if item != items[|items| - 1] {
      assert items == items[..|items| - 1] + [items[|items| - 1]];
      NamesOfHas(items[..|items| - 1], item, name);
    }
  }

  /** The API is asked about the pull request, and answers. */
  ghost predicate ApiAnswers(
      number: int, hasToken: bool, hasRepo: bool, serve: nat -> Page, listing: seq<Item>)
  {
    number > 0 && hasToken && hasRepo && ServesWhole(serve, listing)
  }

  /**
    Of a pull request with any listing, a file, under its current or its previous name, is missing
    from the scope exactly when the API gives no answer and the diff gives one without that name.
    The scope is `ALL` exactly when neither gives an answer.
   */
  lemma ScopeNarrowsExactly(
      number: int, hasToken: bool, hasRepo: bool, serve: nat -> Page, git: Option<seq<string>>,
      listing: seq<Item>, item: Item, name: string)
    requires Honest(serve, listing)
    requires item in listing && name != "" && (name == item.filename || name == item.previous)
    ensures var scope := PullScope(number, hasToken, hasRepo, serve, git);
            var answers := ApiAnswers(number, hasToken, hasRepo, serve, listing);
            && (scope.All? <==> !answers && git.None?)
            && (scope.Files? && name !in scope.paths <==> !answers && git.Some? && name !in git.value)
  {
    ListingComesBackWhole(serve, listing);
    NamesOfHas(listing, item, name);
    if ApiAnswers(number, hasToken, hasRepo, serve, listing) {
      SortedHas(NamesOf(listing), name);
    } else if git.Some? {
      SortedHas(git.value, name);
    }
  }

  lemma {:induction false} NamesOfExactly(items: seq<Item>, name: string)
    ensures name in NamesOf(items)
       <==> name != "" && exists item <- items :: name == item.filename || name == item.previous
  {
    if items != [] {
      NamesOfExactly(items[..|items| - 1], name);
      assert items == items[..|items| - 1] + [items[|items| - 1]];
    }
  }

  /** A list that strictly ascends and holds exactly these names. */
  ghost predicate IsSortedSet(paths: seq<string>, names: seq<string>) {
    Ascending(paths) && forall name :: name in paths <==> name in names
  }

  lemma SortedIsSet(names: seq<string>)
    ensures IsSortedSet(Sorted(Elements(names)), names)
  {
    forall name
      ensures name in Sorted(Elements(names)) <==> name in names
    {
      SortedHas(names, name);
    }
  }

  /**
    The scope of a pull request names nothing else either: where the API answers it is, in order and
    each once, the current and previous names of the files listed, else the diff, else `ALL`.
   */
  lemma ScopeIsExactly(
      number: int, hasToken: bool, hasRepo: bool, serve: nat -> Page, git: Option<seq<string>>, listing: seq<Item>)
    requires Honest(serve, listing)
    ensures var scope := PullScope(number, hasToken, hasRepo, serve, git);
            if ApiAnswers(number, hasToken, hasRepo, serve, listing) then
              && scope.Files? && Ascending(scope.paths)
              && forall name :: name in scope.paths
                   <==> name != "" && exists item <- listing :: name == item.filename || name == item.previous
            else if git.Some? then scope.Files? && IsSortedSet(scope.paths, git.value)
            else scope == All
  {
    ListingComesBackWhole(serve, listing);
    if ApiAnswers(number, hasToken, hasRepo, serve, listing) {
      SortedIsSet(NamesOf(listing));
      forall name
        ensures name in NamesOf(listing)
           <==> name != "" && exists item <- listing :: name == item.filename || name == item.previous
      {
        NamesOfExactly(listing, name);
      }
    } else if git.Some? {
      SortedIsSet(git.value);
    }
  }

  lemma SortedHas(names: seq<string>, name: string)
    ensures name in Sorted(Elements(names)) <==> name in names
  {
    assert name in Elements(Sorted(Elements(names))) <==> name in Elements(names);
  }

  /**
    So a pull request of 3000 files is narrowed to what the diff shows: if they are all deleted,
    which the diff leaves out, to nothing at all.
   */
  lemma LargePullRequestIsNarrowed(listing: seq<Item>)
    requires |listing| >= 3000
    ensures PullScope(1, true, true, Pages(listing), Some([])) == Files([])
  {
    ListingComesBackWhole(Pages(listing), listing);
    EmptyElements(Sorted({}));
    EmptyElements<string>([]);
  }

  // ------------------------------------------------------------------- the list file

  /** Reading in text mode: `\r\n` and `\r` become `\n`. */
  function UniversalNewlines(text: string): string
    decreases |text|
  {
    if text == "" then ""
    else if text[0] == '\r' then
      "\n" + UniversalNewlines(if |text| > 1 && text[1] == '\n' then text[2..] else text[1..])
    else [text[0]] + UniversalNewlines(text[1..])
  }

  /** `_lines`. */
  function Lines(text: string): seq<string> {
    KeepIf(MapSeq(Split(text, IsNewline), Strip), IsNonEmpty)
  }

  function WriteList(scope: Scope): string {
    match scope
    case All => SENTINEL + "\n"
    case Files(paths) => (if paths == [] then "" else Join(paths)) + "\n"
  }

  function FromLines(lines: seq<string>): Scope {
    if |lines| == 1 && Upper(lines[0]) == SENTINEL then All else Files(lines)
  }

  function ReadList(file: string): Scope {
    FromLines(Lines(UniversalNewlines(file)))
  }

  /** `from_env` on a file: the same lines, but no sentinel. */
  function FromEnvFile(file: string): Scope {
    Files(Lines(UniversalNewlines(file)))
  }

  predicate IsReturn(c: char) {
    c == '\r'
  }

  ghost predicate OnOneLine(path: string) {
    Without(path, IsNewline) && Without(path, IsReturn)
  }

  lemma {:induction false} NoReturnNoChange(text: string)
    requires Without(text, IsReturn)
    ensures UniversalNewlines(text) == text
  {
    if text != "" {
      NoReturnNoChange(text[1..]);
      assert text == [text[0]] + text[1..];
    }
  }

  /** Behind text without a return, either line end becomes a newline. */
  lemma {:induction false} ReturnsAreNewlines(a: string, b: string)
    requires Without(a, IsReturn)
    ensures UniversalNewlines(a + ("\r\n" + b)) == a + ("\n" + UniversalNewlines(b))
    ensures b == "" || b[0] != '\n' ==> UniversalNewlines(a + ("\r" + b)) == a + ("\n" + UniversalNewlines(b))
  {
    if a == "" {
      assert "\r\n" + b == a + ("\r\n" + b) && ("\r\n" + b)[2..] == b;
      assert "\r" + b == a + ("\r" + b) && ("\r" + b)[1..] == b;
      assert a + ("\n" + UniversalNewlines(b)) == "\n" + UniversalNewlines(b);
    } else {
      assert !IsReturn(a[0]);
      ReturnsAreNewlines(a[1..], b);
      assert (a + ("\r\n" + b))[1..] == a[1..] + ("\r\n" + b);
      assert (a + ("\r" + b))[1..] == a[1..] + ("\r" + b);
      assert a == [a[0]] + a[1..];
    }
  }

  lemma {:induction false} NoReturnLeft(text: string)
    ensures Without(UniversalNewlines(text), IsReturn)
    decreases |text|
  {
    if text != "" {
      NoReturnLeft(text[1..]);
      if |text| > 1 {
        NoReturnLeft(text[2..]);
      }
    }
  }

  lemma {:induction false} JoinWithout(pieces: seq<string>, p: char -> bool)
    requires pieces != [] && !p('\n') && forall piece <- pieces :: Without(piece, p)
    ensures Without(Join(pieces), p)
  {
    assert pieces[0] in pieces;
    if |pieces| > 1 {
      JoinWithout(pieces[1..], p);
      WithoutJoins(pieces[0] + "\n", Join(pieces[1..]), p);
      WithoutJoins(pieces[0], "\n", p);
    }
  }

  lemma LinesOfLine(text: string)
    ensures Lines(text + "\n") == Lines(text)
  {
    assert text + "\n" == text + ['\n'] + "";
    SplitAround(text, '\n', "", IsNewline);
    var pieces := Split(text, IsNewline);
    assert MapSeq(pieces + [""], Strip) == MapSeq(pieces, Strip) + [""];
    KeepIfJoins(MapSeq(pieces, Strip), [""], IsNonEmpty);
    assert KeepIf([""], IsNonEmpty) == KeepIf([""][..0], IsNonEmpty) == [];
  }

  lemma LinesOfJoin(paths: seq<string>)
    requires paths != [] && forall p <- paths :: OnOneLine(p)
    ensures Lines(Join(paths)) == KeepIf(MapSeq(paths, Strip), IsNonEmpty)
    ensures Without(Join(paths), IsReturn)
  {
    forall i | 0 <= i < |paths|
      ensures Without(paths[i], IsNewline)
    {
      assert paths[i] in paths;
    }
    SplitJoin(paths);
    JoinWithout(paths, IsReturn);
  }

  lemma LinesOfNothing()
    ensures Lines("") == []
  {
    assert MapSeq([""], Strip) == [""];
    assert KeepIf([""], IsNonEmpty) == KeepIf([""][..0], IsNonEmpty) == [];
  }

  /** For paths without line ends, what is written reads back as the trimmed non-blank entries. */
  lemma WrittenListReads(paths: seq<string>)
    requires forall p <- paths :: OnOneLine(p)
    ensures Lines(UniversalNewlines(WriteList(Files(paths)))) == KeepIf(MapSeq(paths, Strip), IsNonEmpty)
  {
    var body := if paths == [] then "" else Join(paths);
    if paths == [] {
      LinesOfNothing();
      assert MapSeq(paths, Strip) == [];
    } else {
      LinesOfJoin(paths);
    }
    WithoutJoins(body, "\n", IsReturn);
    NoReturnNoChange(body + "\n");
    LinesOfLine(body);
  }

  ghost predicate Clean(path: string) {
    OnOneLine(path) && IsStripped(path) && path != ""
  }

  lemma StripWithout(s: string, p: char -> bool)
    requires Without(s, p)
    ensures Without(Strip(s), p)
  {
    LStripDrops(s);
    RStripDrops(LStrip(s));
  }

  lemma {:induction false} SplitKeepsWithout(s: string, sep: char -> bool, p: char -> bool)
    requires Without(s, p)
    ensures forall piece <- Split(s, sep) :: Without(piece, p)
  {
    if s != "" {
      SplitKeepsWithout(s[1..], sep, p);
      var r := Split(s[1..], sep);
      assert r[0] in r;
      forall piece | piece in Split(s, sep)
        ensures Without(piece, p)
      {
        if piece !in r && !sep(s[0]) {
          assert piece == [s[0]] + r[0];
        }
      }
    }
  }

  /** Whatever is read from a list file is clean. */
  lemma ReadPathsAreClean(file: string, path: string)
    requires path in Lines(UniversalNewlines(file))
    ensures Clean(path)
  {
    var text := UniversalNewlines(file);
    var pieces := Split(text, IsNewline);
    KeepIfHas(MapSeq(pieces, Strip), IsNonEmpty, path);
    var i :| 0 <= i < |pieces| && Strip(pieces[i]) == path;
    NoReturnLeft(file);
    SplitPieces(text, IsNewline);
    SplitKeepsWithout(text, IsNewline, IsReturn);
    assert pieces[i] in pieces;
    StripWithout(pieces[i], IsNewline);
    StripWithout(pieces[i], IsReturn);
    StripIsStripped(pieces[i]);
  }

  lemma CleanListReads(paths: seq<string>)
    requires forall p <- paths :: Clean(p)
    ensures Lines(UniversalNewlines(WriteList(Files(paths)))) == paths
    ensures ReadList(WriteList(Files(paths))) == FromLines(paths)
  {
    WrittenListReads(paths);
    forall i | 0 <= i < |paths|
      ensures MapSeq(paths, Strip)[i] == paths[i]
    {
      assert paths[i] in paths;
      StripIsStripped(paths[i]);
    }
    assert MapSeq(paths, Strip) == paths;
    KeepIfLength(paths, IsNonEmpty);
  }

  lemma SentinelLines()
    ensures Lines(UniversalNewlines(WriteList(All))) == [SENTINEL]
  {
    assert Clean(SENTINEL);
    CleanListReads([SENTINEL]);
    assert Join([SENTINEL]) == SENTINEL;
  }

  /** `all`, in any mixture of upper and lower case. */
  predicate SpellsAll(s: string) {
    |s| == 3 && (s[0] == 'A' || s[0] == 'a') && (s[1] == 'L' || s[1] == 'l') && (s[2] == 'L' || s[2] == 'l')
  }

  lemma UpperCharIs(x: char, c: char)
    requires UpperChar(x)[0] == c && (c == 'A' || c == 'L')
    ensures UpperChar(x) == [c] && (x == c || x as int == c as int + 32)
  {}

  lemma UpperStarts(s: string, c: char, rest: string)
    requires s != "" && Upper(s) == [c] + rest
    ensures UpperChar(s[0])[0] == c
    ensures UpperChar(s[0]) == [c] ==> Upper(s[1..]) == rest
  {
    var first, others := UpperChar(s[0]), Upper(s[1..]);
    assert (first + others)[0] == first[0];
    assert (first + others)[|first|..] == others;
    assert ([c] + rest)[1..] == rest;
  }

  lemma UpperAt(s: string, c: char, rest: string)
    requires Upper(s) == [c] + rest && (c == 'A' || c == 'L')
    ensures s != "" && Upper(s[1..]) == rest && (s[0] == c || s[0] as int == c as int + 32)
  {
    assert s != "" by { assert Upper(s) != ""; }
    UpperStarts(s, c, rest);
    UpperCharIs(s[0], c);
  }

  lemma SpellsAllExactly(s: string)
    ensures Upper(s) == SENTINEL <==> SpellsAll(s)
  {
    if Upper(s) == SENTINEL {
      UpperAt(s, 'A', "LL");
      UpperAt(s[1..], 'L', "L");
      UpperAt(s[2..], 'L', "");
      assert s[1..][1..] == s[2..] && s[2..][1..] == s[3..];
      assert Upper(s[3..]) == "" && s[3..] == "";
    }
    if SpellsAll(s) {
      assert s[1..][1..] == s[2..] && s[2..][1..] == "";
      assert Upper(s[2..]) == "L" + "" && Upper(s[1..]) == "L" + "L" && Upper(s) == "A" + "LL";
    }
  }

  /**
    A list survives the file exactly when its paths are clean and it is not a lone entry that
    spells the sentinel; `ALL` always does.
   */
  lemma ListRoundTripsExactly(scope: Scope)
    ensures ReadList(WriteList(scope)) == scope
       <==> scope.Files? ==>
              (forall p <- scope.paths :: Clean(p)) && !(|scope.paths| == 1 && SpellsAll(scope.paths[0]))
  {
    match scope
    case All =>
      SentinelLines();
      SpellsAllExactly(SENTINEL);
    case Files(paths) =>
      if |paths| == 1 {
        SpellsAllExactly(paths[0]);
      }
      if forall p <- paths :: Clean(p) {
        CleanListReads(paths);
      } else if ReadList(WriteList(scope)) == scope {
        forall p | p in paths
          ensures Clean(p)
        {
          ReadPathsAreClean(WriteList(scope), p);
        }
      }
  }

  /** A lone file named `all` is written as a list and read as a full scan. */
  lemma LoneAllIsReadAsAll()
    ensures ReadList(WriteList(Files(["all"]))) == All
  {
    assert Clean("all");
    CleanListReads(["all"]);
    SpellsAllExactly("all");
  }

  /** The same file given through the environment is one path named ALL, not a full scan. */
  lemma SentinelIsNotReadFromEnv()
    ensures FromEnvFile(WriteList(All)) == Files([SENTINEL])
  {
    SentinelLines();
  }

  /** Given through the environment, a list reads back exactly if its paths are clean; `ALL` never does. */
  lemma EnvFileRoundTripsExactly(scope: Scope)
    ensures FromEnvFile(WriteList(scope)) == scope <==> scope.Files? && forall p <- scope.paths :: Clean(p)
  {
    if scope.Files? {
      if forall p <- scope.paths :: Clean(p) {
        CleanListReads(scope.paths);
      } else if FromEnvFile(WriteList(scope)) == scope {
        forall p | p in scope.paths
          ensures Clean(p)
        {
          ReadPathsAreClean(WriteList(scope), p);
        }
      }
    }
  }
}
