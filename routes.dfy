/**
 * The route table and the hash-path matcher of routes.js.
 *
 * A path is split on '/' exactly as JavaScript's `String.prototype.split`
 * does with a one-character separator; a pattern segment that starts with
 * ':' binds the raw path segment at the same position.
 */
module Routes {
  import opened Wrappers

  /** The application's logical screens (the page strings of the table). */
  datatype Page =
    | Home | Login | Signup | Onboarding | Dashboard
    | Invoices | InvoiceNew | InvoiceDetail
    | Expenses | ExpenseNew | Products | ProductNew
    | Clients | ClientNew | Reports | Settings

  /**
   * A table entry: its pattern, kept as the list of its '/'-separated
   * segments (see `Pattern`), and its page.
   */
  datatype Route = Route(segments: seq<string>, page: Page)

  /** What `matchRoute` returns: `{ page, params }`. */
  datatype Match = Match(page: Page, params: map<string, string>)

  /** The route table, in declaration order (object key order). */
  const Table: seq<Route> := [
    Route(["", ""], Home),
    Route(["", "login"], Login),
    Route(["", "signup"], Signup),
    Route(["", "onboarding"], Onboarding),
    Route(["", "dashboard"], Dashboard),
    Route(["", "invoices"], Invoices),
    Route(["", "invoices", "new"], InvoiceNew),
    Route(["", "invoices", ":id"], InvoiceDetail),
    Route(["", "expenses"], Expenses),
    Route(["", "expenses", "new"], ExpenseNew),
    Route(["", "products"], Products),
    Route(["", "products", "new"], ProductNew),
    Route(["", "clients"], Clients),
    Route(["", "clients", "new"], ClientNew),
    Route(["", "reports"], Reports),
    Route(["", "settings"], Settings)
  ]

  /** The fallback when no pattern matches. */
  const NotFound: Match := Match(Home, map[])

  // ---------------------------------------------------------------------
  // Splitting on a one-character separator

  function Occurrences(s: string, c: char): nat
  {
    if s == [] then 0 else (if s[0] == c then 1 else 0) + Occurrences(s[1..], c)
  }

  /** `s.split(sep)`: the pieces between separators, never an empty list. */
  function Split(s: string, sep: char): (parts: seq<string>)
    ensures |parts| > 0
  {
    if s == [] then [""]
    else
      var rest := Split(s[1..], sep);
      if s[0] == sep then [""] + rest
      else [[s[0]] + rest[0]] + rest[1..]
  }

  /** One piece more than there are separators, and no piece holds a separator. */
  lemma {:induction false} SplitPieces(s: string, sep: char)
    ensures |Split(s, sep)| == Occurrences(s, sep) + 1
    ensures forall i :: 0 <= i < |Split(s, sep)| ==> sep !in Split(s, sep)[i]
  {
    if s != [] {
      SplitPieces(s[1..], sep);
      var rest := Split(s[1..], sep);
      if s[0] != sep {
        assert sep !in [s[0]] + rest[0];
      }
    }
  }

  /** `parts.join(sep)`, the inverse of `Split`. */
  function Join(parts: seq<string>, sep: char): string
  {
    if |parts| == 0 then ""
    else if |parts| == 1 then parts[0]
    else parts[0] + [sep] + Join(parts[1..], sep)
  }

  lemma {:induction false} JoinSplit(s: string, sep: char)
    ensures Join(Split(s, sep), sep) == s
  {
    if s != [] {
      var rest := Split(s[1..], sep);
      JoinSplit(s[1..], sep);
      if s[0] == sep {
        assert Split(s, sep) == [""] + rest;
        assert ([""] + rest)[1..] == rest;
      } else {
        var parts := Split(s, sep);
        assert parts == [[s[0]] + rest[0]] + rest[1..];
        if |rest| == 1 {
          assert Join(parts, sep) == [s[0]] + rest[0];
        } else {
          assert parts[1..] == rest[1..];
          assert Join(rest, sep) == rest[0] + [sep] + Join(rest[1..], sep);
        }
        assert s == [s[0]] + s[1..];
      }
    }
  }

  lemma {:induction false} SplitWithoutSeparator(s: string, sep: char)
    requires sep !in s
    ensures Split(s, sep) == [s]
  {
    if s != [] {
      SplitWithoutSeparator(s[1..], sep);
      assert s == [s[0]] + s[1..];
    }
  }

  lemma {:induction false} SplitAfterPiece(a: string, b: string, sep: char)
    requires sep !in a
    ensures Split(a + [sep] + b, sep) == [a] + Split(b, sep)
  {
    if a == [] {
      assert a + [sep] + b == [sep] + b;
      assert ([sep] + b)[1..] == b;
    } else {
      var s := a + [sep] + b;
      assert s[1..] == a[1..] + [sep] + b;
      SplitAfterPiece(a[1..], b, sep);
      assert [a[0]] + a[1..] == a;
    }
  }

  lemma {:induction false} SplitJoin(parts: seq<string>, sep: char)
    requires |parts| > 0
    requires forall i :: 0 <= i < |parts| ==> sep !in parts[i]
    ensures Split(Join(parts, sep), sep) == parts
  {
    if |parts| == 1 {
      SplitWithoutSeparator(parts[0], sep);
    } else {
      SplitJoin(parts[1..], sep);
      SplitAfterPiece(parts[0], Join(parts[1..], sep), sep);
      assert [parts[0]] + parts[1..] == parts;
    }
  }

  // ---------------------------------------------------------------------
  // Segment-by-segment matching

  /** A pattern segment such as `:id`. */
  predicate IsParam(segment: string)
  {
    |segment| > 0 && segment[0] == ':'
  }

  /** Every literal pattern segment equals the path segment at its position. */
  predicate SegmentsAgree(pattern: seq<string>, path: seq<string>)
    requires |pattern| == |path|
  {
    forall i :: 0 <= i < |pattern| ==> IsParam(pattern[i]) || pattern[i] == path[i]
  }

  /** The `params` object filled left to right: a later binding overwrites an earlier one. */
  function Bindings(pattern: seq<string>, path: seq<string>): map<string, string>
    requires |pattern| == |path|
  {
    if |pattern| == 0 then map[]
    else
      var last := |pattern| - 1;
      var prior := Bindings(pattern[..last], path[..last]);
      if IsParam(pattern[last]) then prior[pattern[last][1..] := path[last]] else prior
  }

  /**
   * Every `:name` segment of the pattern names a param, and every param is
   * the path segment at the position of a `:name` segment with that name.
   */
  lemma {:induction false} BindingsNames(pattern: seq<string>, path: seq<string>)
    requires |pattern| == |path|
    ensures forall i :: 0 <= i < |pattern| && IsParam(pattern[i]) ==> pattern[i][1..] in Bindings(pattern, path)
    ensures forall name :: name in Bindings(pattern, path) ==>
      exists i :: 0 <= i < |pattern| && IsParam(pattern[i]) && pattern[i][1..] == name && path[i] == Bindings(pattern, path)[name]
  {
    if |pattern| > 0 {
      var last := |pattern| - 1;
      BindingsNames(pattern[..last], path[..last]);
      var prior := Bindings(pattern[..last], path[..last]);
      var params := Bindings(pattern, path);
      forall name | name in params
        ensures exists i :: 0 <= i < |pattern| && IsParam(pattern[i]) && pattern[i][1..] == name && path[i] == params[name]
      {
        if IsParam(pattern[last]) && name == pattern[last][1..] {
          assert path[last] == params[name];
        } else {
          assert name in prior && params[name] == prior[name];
          var i :| 0 <= i < last && IsParam(pattern[..last][i]) && pattern[..last][i][1..] == name && path[..last][i] == prior[name];
          assert pattern[i] == pattern[..last][i];
        }
      }
    }
  }

  /** The pattern string of a route: its segments joined with '/'. */
  function Pattern(route: Route): string
  {
    Join(route.segments, '/')
  }

  /** A route whose segments are what splitting its pattern gives back. */
  predicate WellFormed(route: Route)
  {
    |route.segments| > 0 && forall i :: 0 <= i < |route.segments| ==> '/' !in route.segments[i]
  }

  /** Splitting the pattern of a well-formed route yields its segments. */
  lemma PatternSplits(route: Route)
    requires WellFormed(route)
    ensures Split(Pattern(route), '/') == route.segments
  {
    SplitJoin(route.segments, '/');
  }

  /** Every entry of the table is well formed. */
  lemma TableWellFormed(i: nat)
    requires i < |Table|
    ensures WellFormed(Table[i])
  {
  }

  lemma AllTableEntriesWellFormed()
    ensures forall i :: 0 <= i < |Table| ==> WellFormed(Table[i])
  {
    forall i | 0 <= i < |Table| ensures WellFormed(Table[i]) {
      TableWellFormed(i);
    }
  }

  /**
   * One iteration of `matchRoute`'s outer loop: the params the entry yields
   * for `path`, or None when the loop moves on to the next entry. The
   * pattern's split is its segment list (`PatternSplits`).
   */
  function Try(route: Route, path: string): Option<map<string, string>>
  {
    if Pattern(route) == path then Some(map[])
    else
      var patternParts := route.segments;
      var pathParts := Split(path, '/');
      if |patternParts| == |pathParts| && SegmentsAgree(patternParts, pathParts)
      then Some(Bindings(patternParts, pathParts))
      else None
  }

  /** Entry `i` accepts `path` and no earlier entry does. */
  predicate FirstAccepting(table: seq<Route>, path: string, i: int)
    requires 0 <= i < |table|
  {
    Try(table[i], path).Some? && forall j :: 0 <= j < i ==> Try(table[j], path).None?
  }

  /** `matchRoute` over a table: the first entry that accepts `path` wins. */
  function MatchIn(table: seq<Route>, path: string): Match
  {
    if table == [] then NotFound
    else match Try(table[0], path)
      case Some(params) => Match(table[0].page, params)
      case None => MatchIn(table[1..], path)
  }

  /** The first entry that accepts the path decides the match. */
  lemma {:induction false} FirstAcceptingWins(table: seq<Route>, path: string, i: nat)
    requires i < |table| && FirstAccepting(table, path, i)
    ensures MatchIn(table, path) == Match(table[i].page, Try(table[i], path).value)
  {
    if i > 0 {
      assert Try(table[0], path).None?;
      assert FirstAccepting(table[1..], path, i - 1) by {
        forall j | 0 <= j < i - 1 ensures Try(table[1..][j], path).None? {
          assert Try(table[j + 1], path).None?;
        }
      }
      FirstAcceptingWins(table[1..], path, i - 1);
    }
  }

  /** When no entry accepts the path, the match falls back to the home page. */
  lemma {:induction false} NoneAcceptingFallsBack(table: seq<Route>, path: string)
    requires forall i :: 0 <= i < |table| ==> Try(table[i], path).None?
    ensures MatchIn(table, path) == NotFound
  {
    if table != [] {
      assert Try(table[0], path).None?;
      NoneAcceptingFallsBack(table[1..], path);
    }
  }

  /**
   * The inner loop of `matchRoute` for two part lists of equal length: the
   * `matches` flag and the `params` object it leaves behind.
   */
  method MatchParts(patternParts: seq<string>, pathParts: seq<string>)
    returns (matches: bool, params: map<string, string>)
    requires |patternParts| == |pathParts|
    ensures matches == SegmentsAgree(patternParts, pathParts)
    ensures matches ==> params == Bindings(patternParts, pathParts)
  {
    params := map[];
    matches := true;
    var i := 0;
    while i < |patternParts|
      invariant 0 <= i <= |patternParts|
      invariant forall j :: 0 <= j < i ==> IsParam(patternParts[j]) || patternParts[j] == pathParts[j]
      invariant params == Bindings(patternParts[..i], pathParts[..i])
    {
      assert patternParts[..i + 1][..i] == patternParts[..i];
      assert pathParts[..i + 1][..i] == pathParts[..i];
      if IsParam(patternParts[i]) {
        params := params[patternParts[i][1..] := pathParts[i]];
      } else if patternParts[i] != pathParts[i] {
        matches := false;
        return;
      }
      i := i + 1;
    }
    assert patternParts[..i] == patternParts && pathParts[..i] == pathParts;
  }

  /**
   * `matchRoute(path)` over a table of well-formed routes: the outer loop of
   * the source, splitting each pattern string as it goes, with its early
   * returns.
   */
  method MatchRoute(table: seq<Route>, path: string) returns (m: Match)
    requires forall k :: 0 <= k < |table| ==> WellFormed(table[k])
    ensures m == MatchIn(table, path)
  {
    var k := 0;
    while k < |table|
      invariant 0 <= k <= |table|
      invariant MatchIn(table[k..], path) == MatchIn(table, path)
    {
      var route := table[k];
      var pattern := Pattern(route);
      assert table[k..][1..] == table[k + 1..];
      if pattern == path {
        return Match(route.page, map[]);
      }
      var patternParts := Split(pattern, '/');
      PatternSplits(route);
      var pathParts := Split(path, '/');
      if |patternParts| == |pathParts| {
        var matches, params := MatchParts(patternParts, pathParts);
        if matches {
          return Match(route.page, params);
        }
      }
      k := k + 1;
    }
    return NotFound;
  }

  // ---------------------------------------------------------------------
  // Facts about the route table

  /** Two patterns of the table either differ in length or in a literal segment. */
  lemma TablePatternsDistinct(j: nat, i: nat)
    requires j < i < |Table|
    ensures |Table[j].segments| != |Table[i].segments| ||
      exists k :: 1 <= k < |Table[j].segments| && !IsParam(Table[j].segments[k]) && Table[j].segments[k] != Table[i].segments[k]
  {
    var a, b := Table[j].segments, Table[i].segments;
    if |a| == |b| {
      if j == 6 && i == 7 {
        assert !IsParam(a[2]) && a[2] != b[2];
      } else {
        assert !IsParam(a[1]) && a[1] != b[1];
      }
    }
  }

  /** A pattern whose segment count differs from the path's never matches it. */
  lemma RejectedByCount(route: Route, path: string)
    requires WellFormed(route)
    requires |route.segments| != |Split(path, '/')|
    ensures Try(route, path) == None
  {
    PatternSplits(route);
  }

  /** A literal pattern segment that differs from the path's segment rejects the path. */
  lemma RejectedBySegment(route: Route, path: string, k: nat)
    requires WellFormed(route)
    requires |route.segments| == |Split(path, '/')|
    requires k < |route.segments|
    requires !IsParam(route.segments[k])
    requires route.segments[k] != Split(path, '/')[k]
    ensures Try(route, path) == None
  {
    PatternSplits(route);
  }

  /** Each pattern of the table, used verbatim as the path, yields its own page with no params. */
  lemma PatternResolvesToOwnPage(i: nat)
    requires i < |Table|
    ensures MatchIn(Table, Pattern(Table[i])) == Match(Table[i].page, map[])
  {
    var path := Pattern(Table[i]);
    TableWellFormed(i);
    PatternSplits(Table[i]);
    forall j | 0 <= j < i
      ensures Try(Table[j], path).None?
    {
      TableWellFormed(j);
      TablePatternsDistinct(j, i);
      if |Table[j].segments| == |Table[i].segments| {
        var k :| 1 <= k < |Table[j].segments| && !IsParam(Table[j].segments[k]) && Table[j].segments[k] != Table[i].segments[k];
        RejectedBySegment(Table[j], path, k);
      } else {
        RejectedByCount(Table[j], path);
      }
    }
    FirstAcceptingWins(Table, path, i);
  }

  /** Without parameter segments nothing is bound. */
  lemma {:induction false} BindingsWithoutParams(pattern: seq<string>, path: seq<string>)
    requires |pattern| == |path|
    requires forall i :: 0 <= i < |pattern| ==> !IsParam(pattern[i])
    ensures Bindings(pattern, path) == map[]
  {
    if |pattern| > 0 {
      var last := |pattern| - 1;
      BindingsWithoutParams(pattern[..last], path[..last]);
    }
  }

  /** The detail pattern `/invoices/:id` binds the third segment of a path to `id`. */
  lemma DetailPatternBinds(route: Route, path: string, x: string)
    requires route.segments == ["", "invoices", ":id"]
    requires Split(path, '/') == ["", "invoices", x]
    requires x != ":id"
    ensures Try(route, path) == Some(map["id" := x])
  {
    var pattern := route.segments;
    var parts := ["", "invoices", x];
    assert Pattern(route) != path by {
      assert WellFormed(route);
      PatternSplits(route);
      assert pattern[2] != parts[2];
    }
    assert SegmentsAgree(pattern, parts);
    assert Bindings(pattern, parts) == map["id" := x] by {
      BindingsWithoutParams(pattern[..2], parts[..2]);
      assert ":id"[1..] == "id";
    }
  }

  lemma JoinThree(parts: seq<string>)
    requires |parts| == 3
    ensures Join(parts, '/') == parts[0] + "/" + parts[1] + "/" + parts[2]
  {
    assert parts[1..][1..] == [parts[2]];
    assert Join(parts[1..], '/') == parts[1] + "/" + parts[2];
  }

  /** The table's seventh entry is `/invoices/new`. */
  lemma InvoiceNewPattern()
    ensures Pattern(Table[6]) == "/invoices/new"
  {
    JoinThree(Table[6].segments);
  }

  /** The table's eighth entry is `/invoices/:id`. */
  lemma InvoiceDetailPattern()
    ensures Pattern(Table[7]) == "/invoices/:id"
  {
    JoinThree(Table[7].segments);
  }

  /**
   * Declaration order decides: `/invoices/:id` would accept `/invoices/new`,
   * binding `id` to "new", but `/invoices/new` comes first and wins.
   */
  lemma DeclarationOrderWins()
    ensures Pattern(Table[6]) == "/invoices/new" && Pattern(Table[7]) == "/invoices/:id"
    ensures Try(Table[7], Pattern(Table[6])) == Some(map["id" := "new"])
    ensures MatchIn(Table, Pattern(Table[6])) == Match(InvoiceNew, map[])
  {
    InvoiceNewPattern();
    InvoiceDetailPattern();
    TableWellFormed(6);
    PatternSplits(Table[6]);
    DetailPatternBinds(Table[7], Pattern(Table[6]), "new");
    PatternResolvesToOwnPage(6);
  }

  /** The entries before `/invoices/:id` reject `/invoices/X` when X is not `new`. */
  lemma EntriesBeforeDetailReject(path: string, x: string)
    requires Split(path, '/') == ["", "invoices", x]
    requires x != "new"
    ensures forall j :: 0 <= j < 7 ==> Try(Table[j], path).None?
  {
    forall j | 0 <= j < 6
      ensures Try(Table[j], path).None?
    {
      TableWellFormed(j);
      RejectedByCount(Table[j], path);
    }
    assert Try(Table[6], path).None? by {
      TableWellFormed(6);
      RejectedBySegment(Table[6], path, 2);
    }
  }

  /**
   * `/invoices/X`, for a segment X other than `new` and `:id`, resolves to
   * the invoice detail page with `id` bound to X verbatim (X may be empty).
   */
  lemma InvoiceIdBinds(x: string)
    requires '/' !in x && x != "new" && x != ":id"
    ensures MatchIn(Table, "/invoices/" + x) == Match(InvoiceDetail, map["id" := x])
  {
    InvoicePathSplits(x);
    DetailPathBinds("/invoices/" + x, x);
  }

  /**
   * The path `/invoices/:id` itself equals the detail pattern, so the
   * literal comparison accepts it first and nothing is bound.
   */
  lemma DetailPatternAsPath()
    ensures MatchIn(Table, "/invoices/:id") == Match(InvoiceDetail, map[])
  {
    InvoiceDetailPattern();
    PatternResolvesToOwnPage(7);
  }

  lemma InvoicePathSplits(x: string)
    requires '/' !in x
    ensures Split("/invoices/" + x, '/') == ["", "invoices", x]
  {
    var parts := ["", "invoices", x];
    assert Join(parts, '/') == "/invoices/" + x by {
      assert parts[1..] == ["invoices", x] && ["invoices", x][1..] == [x];
      assert Join(["invoices", x], '/') == "invoices" + "/" + x;
      assert Join(parts, '/') == "" + "/" + ("invoices" + "/" + x);
    }
    SplitJoin(parts, '/');
  }

  lemma DetailPathBinds(path: string, x: string)
    requires Split(path, '/') == ["", "invoices", x]
    requires x != "new" && x != ":id"
    ensures MatchIn(Table, path) == Match(InvoiceDetail, map["id" := x])
  {
    EntriesBeforeDetailReject(path, x);
    DetailPatternBinds(Table[7], path, x);
    FirstAcceptingWins(Table, path, 7);
  }

  /** No pattern of the table has more than three segments. */
  lemma TableDepth(i: nat)
    requires i < |Table|
    ensures |Table[i].segments| <= 3
  {
  }

  /** A path with more segments than any pattern falls back to the home page. */
  lemma DeepPathFallsBack(path: string)
    requires |Split(path, '/')| > 3
    ensures MatchIn(Table, path) == NotFound
  {
    forall i | 0 <= i < |Table|
      ensures Try(Table[i], path).None?
    {
      TableWellFormed(i);
      TableDepth(i);
      RejectedByCount(Table[i], path);
    }
    NoneAcceptingFallsBack(Table, path);
  }
}
