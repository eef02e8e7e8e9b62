/** `generate_suggested_tags` and the filtering `update_suggested_tags`
    applies before showing suggestions. The regular-expression matches the
    source collects with `re.findall` are inputs here. */
module Suggest {
  import opened Text
  import FileType

  /** The separators the file name is split on, in the order applied. */
  const Separators: seq<char> := [' ', '-', '_', '.', ',', ':', ';', '+', '&', '#', '=', '(', ')', '!', '?']

  function SetOf(cs: seq<char>): (r: set<char>)
    ensures forall c :: c in r <==> c in cs
  {
    set i | 0 <= i < |cs| :: cs[i]
  }

  /** The pieces of every part split on `seps`, one after another. */
  function SplitAll(parts: seq<string>, seps: set<char>): seq<string> {
    if parts == [] then []
    else SplitAll(parts[..|parts| - 1], seps) + Split(parts[|parts| - 1], seps)
  }

  /** One pass of the source's loop over a separator: each part is split on
      `c` and its non-empty pieces are collected in order. */
  function Stage(parts: seq<string>, c: char): seq<string> {
    if parts == [] then []
    else Stage(parts[..|parts| - 1], c) + NonEmpty(SplitOn(parts[|parts| - 1], c))
  }

  lemma {:induction false} SplitAllAppend(a: seq<string>, b: seq<string>, seps: set<char>)
    ensures SplitAll(a + b, seps) == SplitAll(a, seps) + SplitAll(b, seps)
  {
    if b != [] {
      assert (a + b)[..|a + b| - 1] == a + b[..|b| - 1];
      SplitAllAppend(a, b[..|b| - 1], seps);
    } else {
      assert a + b == a;
    }
  }

  lemma {:induction false} StageIsFilteredSplit(parts: seq<string>, c: char)
    ensures Stage(parts, c) == NonEmpty(SplitAll(parts, {c}))
  {
    if parts != [] {
      var init := parts[..|parts| - 1];
      StageIsFilteredSplit(init, c);
      NonEmptyAppend(SplitAll(init, {c}), SplitOn(parts[|parts| - 1], c));
    }
  }

  /** Empty parts contribute nothing once empty pieces are dropped. */
  lemma {:induction false} SplitAllNonEmpty(parts: seq<string>, seps: set<char>)
    ensures NonEmpty(SplitAll(NonEmpty(parts), seps)) == NonEmpty(SplitAll(parts, seps))
  {
    if parts != [] {
      var h := if parts[0] == [] then [] else [parts[0]];
      assert parts == [parts[0]] + parts[1..];
      assert NonEmpty(parts) == h + NonEmpty(parts[1..]);
      SplitAllAppend([parts[0]], parts[1..], seps);
      SplitAllAppend(h, NonEmpty(parts[1..]), seps);
      SplitAllNonEmpty(parts[1..], seps);
      NonEmptyAppend(SplitAll([parts[0]], seps), SplitAll(parts[1..], seps));
      NonEmptyAppend(SplitAll(h, seps), SplitAll(NonEmpty(parts[1..]), seps));
      if parts[0] == [] {
        assert SplitAll([parts[0]], seps) == [[]];
        assert NonEmpty([[]]) == [];
        assert SplitAll(h, seps) == [];
      } else {
        assert h == [parts[0]];
      }
    }
  }

  /** Splitting on `seps` and then splitting every piece on `c` is one split
      on `seps` and `c` together. */
  lemma {:induction false} SplitRefine(t: string, seps: set<char>, c: char)
    ensures SplitAll(Split(t, seps), {c}) == Split(t, seps + {c})
  {
    if t == [] {
      assert SplitAll([[]], {c}) == SplitAll([], {c}) + Split([], {c});
    } else {
      SplitRefine(t[1..], seps, c);
      if t[0] in seps {
        SplitRefineAtSeparator(t, seps, c);
      } else {
        SplitRefineInsidePiece(t, seps, c);
      }
    }
  }

  lemma {:induction false} SplitRefineAtSeparator(t: string, seps: set<char>, c: char)
    requires t != [] && t[0] in seps
    requires SplitAll(Split(t[1..], seps), {c}) == Split(t[1..], seps + {c})
    ensures SplitAll(Split(t, seps), {c}) == Split(t, seps + {c})
  {
    var rest := Split(t[1..], seps);
    calc {
      SplitAll(Split(t, seps), {c});
      SplitAll([[]] + rest, {c});
      { SplitAllCons([], rest, {c}); }
      Split([], {c}) + SplitAll(rest, {c});
      [[]] + Split(t[1..], seps + {c});
      { AtSeparator(t, seps + {c}); }
      Split(t, seps + {c});
    }
  }

  /** A string that starts with a separator splits into an empty piece and
      the split of the rest. */
  lemma AtSeparator(t: string, seps: set<char>)
    requires t != [] && t[0] in seps
    ensures Split(t, seps) == [[]] + Split(t[1..], seps)
  {
  }

  lemma {:induction false} SplitAllCons(x: string, xs: seq<string>, seps: set<char>)
    ensures SplitAll([x] + xs, seps) == Split(x, seps) + SplitAll(xs, seps)
  {
    SplitAllAppend([x], xs, seps);
    assert SplitAll([x], seps) == SplitAll([], seps) + Split(x, seps);
  }

  /** The first step of `Split` on a string that starts with `x`. */
  lemma {:induction false} SplitCons(x: char, s: string, seps: set<char>)
    ensures Split([x] + s, seps) ==
      if x in seps then [[]] + Split(s, seps)
      else [[x] + Split(s, seps)[0]] + Split(s, seps)[1..]
  {
    assert ([x] + s)[1..] == s;
  }

  lemma {:induction false} SplitRefineInsidePiece(t: string, seps: set<char>, c: char)
    requires t != [] && t[0] !in seps
    requires SplitAll(Split(t[1..], seps), {c}) == Split(t[1..], seps + {c})
    ensures SplitAll(Split(t, seps), {c}) == Split(t, seps + {c})
  {
    var x := t[0];
    var rest := Split(t[1..], seps);
    var r0 := Split(rest[0], {c});
    var tail := SplitAll(rest[1..], {c});
    InsidePieceHead(t, seps, c);
    InsidePieceRest(rest, c);
    SplitCons(x, rest[0], {c});
    InsidePieceRefined(t, seps, c);
    PiecesThenTail(x, c, r0, tail);
  }

  /** Splitting on `seps` first: the leading piece, then the others. */
  lemma {:induction false} InsidePieceHead(t: string, seps: set<char>, c: char)
    requires t != [] && t[0] !in seps
    ensures var rest := Split(t[1..], seps);
      SplitAll(Split(t, seps), {c}) == Split([t[0]] + rest[0], {c}) + SplitAll(rest[1..], {c})
  {
    var rest := Split(t[1..], seps);
    assert Split(t, seps) == [[t[0]] + rest[0]] + rest[1..];
    SplitAllCons([t[0]] + rest[0], rest[1..], {c});
  }

  lemma {:induction false} InsidePieceRest(rest: seq<string>, c: char)
    requires rest != []
    ensures SplitAll(rest, {c}) == Split(rest[0], {c}) + SplitAll(rest[1..], {c})
  {
    assert rest == [rest[0]] + rest[1..];
    SplitAllCons(rest[0], rest[1..], {c});
  }

  /** Splitting on `seps` and `c` at once, at a character that is not in `seps`. */
  lemma {:induction false} InsidePieceRefined(t: string, seps: set<char>, c: char)
    requires t != [] && t[0] !in seps
    ensures var b := Split(t[1..], seps + {c});
      Split(t, seps + {c}) == if t[0] == c then [[]] + b else [[t[0]] + b[0]] + b[1..]
  {
  }

  lemma {:induction false} PiecesThenTail(x: char, c: char, r0: seq<string>, tail: seq<string>)
    requires |r0| >= 1
    ensures (if x == c then [[]] + r0 else [[x] + r0[0]] + r0[1..]) + tail
      == (var b := r0 + tail; if x == c then [[]] + b else [[x] + b[0]] + b[1..])
  {
  }

  /** The cascade over the separators `seps`, applied in order. */
  function Cascade(name: string, seps: seq<char>): seq<string> {
    if seps == [] then [name] else Stage(Cascade(name, seps[..|seps| - 1]), seps[|seps| - 1])
  }

  lemma SetOfSnoc(cs: seq<char>, c: char)
    ensures SetOf(cs + [c]) == SetOf(cs) + {c}
  {
    assert forall x :: x in cs + [c] <==> x in cs || x == c;
  }

  lemma {:induction false} CascadeIsOneSplit(name: string, seps: seq<char>)
    requires seps != []
    ensures Cascade(name, seps) == NonEmpty(Split(name, SetOf(seps)))
  {
    var init := seps[..|seps| - 1];
    var c := seps[|seps| - 1];
    assert seps == init + [c];
    SetOfSnoc(init, c);
    if init == [] {
      CascadeOne(name, c);
    } else {
      var s := SetOf(init);
      calc {
        Cascade(name, seps);
        Stage(Cascade(name, init), c);
        { StageIsFilteredSplit(Cascade(name, init), c); }
        NonEmpty(SplitAll(Cascade(name, init), {c}));
        { CascadeIsOneSplit(name, init); }
        NonEmpty(SplitAll(NonEmpty(Split(name, s)), {c}));
        { SplitAllNonEmpty(Split(name, s), {c}); }
        NonEmpty(SplitAll(Split(name, s), {c}));
        { SplitRefine(name, s, c); }
        NonEmpty(Split(name, s + {c}));
      }
    }
  }

  /** The cascade over one separator is one split on it. */
  lemma CascadeOne(name: string, c: char)
    ensures Cascade(name, [c]) == NonEmpty(Split(name, SetOf([c])))
  {
    assert [c][..0] == [];
    assert SetOf([c]) == {c};
    StageIsFilteredSplit([name], c);
    assert SplitAll([name], {c}) == SplitAll([], {c}) + Split(name, {c});
  }

  /** The tokens of a name: its maximal runs free of separators. */
  function Tokens(name: string): seq<string> {
    NonEmpty(Split(name, SetOf(Separators)))
  }

  /** The loop of `generate_suggested_tags` that splits the name on each
      separator in turn, keeping non-empty parts: its result is one split
      of the name on all separators at once. */
  method Tokenize(name: string) returns (parts: seq<string>)
    ensures parts == Tokens(name)
  {
    parts := [name];
    for k := 0 to |Separators|
      invariant parts == Cascade(name, Separators[..k])
    {
      var separator := Separators[k];
      var newParts: seq<string> := [];
      for j := 0 to |parts|
        invariant newParts == Stage(parts[..j], separator)
      {
        assert parts[..j + 1][..j] == parts[..j];
        newParts := newParts + NonEmpty(SplitOn(parts[j], separator));
      }
      assert parts[..|parts|] == parts;
      assert Separators[..k + 1][..k] == Separators[..k];
      parts := newParts;
    }
    assert Separators[..|Separators|] == Separators;
    CascadeIsOneSplit(name, Separators);
  }

  /** No piece of a split holds a separator. */
  lemma {:induction false} SplitPiecesAvoid(s: string, seps: set<char>)
    ensures forall p :: p in Split(s, seps) ==> forall i :: 0 <= i < |p| ==> p[i] !in seps
  {
    if s != [] {
      SplitPiecesAvoid(s[1..], seps);
    }
  }

  /** The characters of `s` that are not separators, in order. */
  function Without(s: string, seps: set<char>): (r: string)
    ensures |r| <= |s|
  {
    if s == [] then []
    else (if s[0] in seps then [] else [s[0]]) + Without(s[1..], seps)
  }

  function Concat(parts: seq<string>): string {
    if parts == [] then [] else parts[0] + Concat(parts[1..])
  }

  lemma {:induction false} ConcatNonEmpty(parts: seq<string>)
    ensures Concat(NonEmpty(parts)) == Concat(parts)
  {
    if parts != [] {
      ConcatNonEmpty(parts[1..]);
      var h := if parts[0] == [] then [] else [parts[0]];
      assert NonEmpty(parts) == h + NonEmpty(parts[1..]);
      if parts[0] != [] {
        assert (h + NonEmpty(parts[1..]))[0] == parts[0];
        assert (h + NonEmpty(parts[1..]))[1..] == NonEmpty(parts[1..]);
      } else {
        assert NonEmpty(parts) == NonEmpty(parts[1..]);
        assert Concat(parts) == [] + Concat(parts[1..]);
      }
    }
  }

  lemma {:induction false} ConcatSplit(s: string, seps: set<char>)
    ensures Concat(Split(s, seps)) == Without(s, seps)
  {
    if s != [] {
      var rest := Split(s[1..], seps);
      ConcatSplit(s[1..], seps);
      assert rest == [rest[0]] + rest[1..];
      assert Concat(rest) == rest[0] + Concat(rest[1..]);
      if s[0] !in seps {
        var r := [[s[0]] + rest[0]] + rest[1..];
        assert r[1..] == rest[1..];
        assert Concat(r) == [s[0]] + rest[0] + Concat(rest[1..]);
      } else {
        assert ([[]] + rest)[1..] == rest;
      }
    }
  }

  /** The tokens are non-empty, hold no separator, and are exactly the
      name's other characters, in order. */
  lemma TokensShape(name: string)
    ensures forall t :: t in Tokens(name) ==> t != [] && forall i :: 0 <= i < |t| ==> t[i] !in Separators
    ensures Concat(Tokens(name)) == Without(name, SetOf(Separators))
  {
    SplitPiecesAvoid(name, SetOf(Separators));
    ConcatNonEmpty(Split(name, SetOf(Separators)));
    ConcatSplit(name, SetOf(Separators));
  }

  /** The sub-tags a date match adds: its first four characters, and its
      last four when it has 8 or 10 characters (positions 4-8 or 6-10). */
  function DateSubTags(d: string): (r: seq<string>)
    ensures |d| == 8 ==> r == [d[0..4], d[4..8]]
    ensures |d| == 10 ==> r == [d[0..4], d[6..10]]
    ensures |d| != 8 && |d| != 10 ==> r == []
  {
    if |d| == 8 then [d[..4], d[4..8]]
    else if |d| == 10 then [d[..4], d[6..10]]
    else []
  }

  /** For a ten-character date in year-month-day order the second sub-tag is
      not the day but the last four characters, "5-10" for "2023-05-10". */
  lemma DashedDateSubTags()
    ensures DateSubTags("2023-05-10") == ["2023", "5-10"]
    ensures DateSubTags("20230510") == ["2023", "0510"]
  {
    assert "2023-05-10"[..4] == "2023";
    assert "2023-05-10"[6..10] == "5-10";
    assert "20230510"[..4] == "2023";
    assert "20230510"[4..8] == "0510";
  }

  /** The `re.findall` results `generate_suggested_tags` consumes: the date
      matches of its ten patterns in order, the year matches of both year
      patterns, the dimension matches and the resolution matches of both
      resolution patterns. */
  datatype Matches = Matches(dates: seq<string>, years: seq<string>, dimensions: seq<string>, resolutions: seq<string>)

  /** The extension tag: the extension without its dot, lowercased. */
  function ExtensionTag(filename: string): (r: seq<string>)
    ensures |r| <= 1
    ensures r != [] <==> FileType.SplitExt(filename).1 != []
  {
    var ext := FileType.SplitExt(filename).1;
    if ext != [] then [Lower(ext[1..])] else []
  }

  /** A date match, or one of its fixed-slice sub-tags. */
  predicate FromDates(dates: seq<string>, t: string) {
    t in dates || exists d :: d in dates && t in DateSubTags(d)
  }

  /** A resolution match, lowercased. */
  predicate FromResolutions(resolutions: seq<string>, t: string) {
    exists res :: res in resolutions && t == Lower(res)
  }

  /** A token longer than one character, lowercased. */
  predicate FromTokens(parts: seq<string>, t: string) {
    exists p :: p in parts && |p| > 1 && t == Lower(p)
  }

  /** Everything `generate_suggested_tags` puts into its set. */
  predicate Suggested(filename: string, m: Matches, t: string) {
    || t in ExtensionTag(filename)
    || FromDates(m.dates, t)
    || t in m.years
    || t in m.dimensions
    || FromResolutions(m.resolutions, t)
    || FromTokens(Tokens(FileType.SplitExt(filename).0), t)
  }

  /** `generate_suggested_tags(filename)` with the regular-expression matches
      given: the suggestions sorted and duplicate-free. */
  method GenerateSuggestedTags(filename: string, m: Matches) returns (r: seq<string>)
    ensures StrictlySorted(r)
    ensures forall t :: t in r <==> Suggested(filename, m, t)
  {
    var (name, ext) := FileType.SplitExt(filename);
    var suggested: seq<string> := [];
    if ext != [] {
      suggested := suggested + [Lower(ext[1..])];
    }
    var parts := Tokenize(name);
    var dated := DateTags(m.dates);
    var resolved := ResolutionTags(m.resolutions);
    var named := TokenTags(parts);
    suggested := suggested + dated + m.years + m.dimensions + resolved + named;
    r := SortedDistinct(suggested);
  }

  /** The date loop of `generate_suggested_tags`: each match, then its
      sub-tags. */
  method DateTags(dates: seq<string>) returns (out: seq<string>)
    ensures forall t :: t in out <==> FromDates(dates, t)
  {
    out := [];
    for i := 0 to |dates|
      invariant forall t :: t in out <==> FromDates(dates[..i], t)
    {
      var date := dates[i];
      assert dates[..i + 1] == dates[..i] + [date];
      ghost var before := out;
      out := out + [date];
      if |date| == 8 {
        out := out + [date[..4], date[4..8]];
      } else if |date| == 10 {
        out := out + [date[..4], date[6..10]];
      }
      assert out == before + [date] + DateSubTags(date);
      forall t | t in DateSubTags(date)
        ensures exists d :: d in dates[..i + 1] && t in DateSubTags(d)
      {
        assert date in dates[..i + 1];
      }
    }
    assert dates[..|dates|] == dates;
  }

  /** The two resolution loops: each match, lowercased. */
  method ResolutionTags(resolutions: seq<string>) returns (out: seq<string>)
    ensures forall t :: t in out <==> FromResolutions(resolutions, t)
  {
    out := [];
    for i := 0 to |resolutions|
      invariant forall t :: t in out <==> FromResolutions(resolutions[..i], t)
    {
      assert resolutions[..i + 1] == resolutions[..i] + [resolutions[i]];
      out := out + [Lower(resolutions[i])];
    }
    assert resolutions[..|resolutions|] == resolutions;
  }

  /** The final loop: every token longer than one character, lowercased. */
  method TokenTags(parts: seq<string>) returns (out: seq<string>)
    ensures forall t :: t in out <==> FromTokens(parts, t)
  {
    out := [];
    for i := 0 to |parts|
      invariant forall t :: t in out <==> FromTokens(parts[..i], t)
    {
      assert parts[..i + 1] == parts[..i] + [parts[i]];
      if |parts[i]| > 1 {
        out := out + [Lower(parts[i])];
      }
    }
    assert parts[..|parts|] == parts;
  }

  /** The suggestions drawn from the name itself: the lowercased extension
      when there is one, and every token longer than one character,
      lowercased, which holds no separator. */
  lemma NameSuggestions(filename: string, m: Matches)
    ensures var (name, ext) := FileType.SplitExt(filename);
      && (ext != [] ==> Suggested(filename, m, Lower(ext[1..])))
      && forall p :: p in Tokens(name) && |p| > 1 ==>
           Suggested(filename, m, Lower(p)) && forall i :: 0 <= i < |p| ==> Lower(p)[i] !in Separators
  {
    var name := FileType.SplitExt(filename).0;
    TokensShape(name);
    forall p | p in Tokens(name) && |p| > 1
      ensures forall i :: 0 <= i < |p| ==> Lower(p)[i] !in Separators
    {
      LowerKeepsSeparatorsOut(p);
    }
  }

  /** Lowercasing maps no character onto a separator it was not already. */
  lemma LowerKeepsSeparatorsOut(p: string)
    requires forall i :: 0 <= i < |p| ==> p[i] !in Separators
    ensures forall i :: 0 <= i < |p| ==> Lower(p)[i] !in Separators
  {
    forall i | 0 <= i < |p| ensures Lower(p)[i] !in Separators {
      assert Lower(p)[i] == LowerChar(p[i]);
    }
  }

  /** The last component of a directory path (`os.path.basename`). */
  function LastFolder(directory: string): (r: string)
    ensures |r| <= |directory| && r == directory[|directory| - |r|..] && '/' !in r
    ensures |r| == |directory| || directory[|directory| - |r| - 1] == '/'
  {
    directory[FileType.LastIndexOf(directory, '/') + 1..]
  }

  /** The directory components `update_suggested_tags` adds in full-path
      mode: every non-empty component other than "/" and "\", lowercased. */
  function PathSegmentTags(directory: string): (r: seq<string>)
    ensures forall t :: t in r <==>
      exists s :: s in SplitOn(directory, '/') && s != [] && s != "/" && s != "\\" && t == Lower(s)
  {
    var parts := SplitOn(directory, '/');
    SegmentTags(parts)
  }

  function SegmentTags(parts: seq<string>): (r: seq<string>)
    ensures forall t :: t in r <==> exists s :: s in parts && s != [] && s != "/" && s != "\\" && t == Lower(s)
  {
    if parts == [] then []
    else
      var h := parts[|parts| - 1];
      var init := SegmentTags(parts[..|parts| - 1]);
      assert parts == parts[..|parts| - 1] + [h];
      if h != [] && h != "/" && h != "\\" then init + [Lower(h)] else init
  }

  /** The tags `update_suggested_tags` adds for the file's directory: none
      for an empty directory, otherwise every component (full-path mode) or
      the last one, lowercased. */
  function DirectoryTags(directory: string, fullPath: bool): seq<string> {
    if directory == [] then []
    else if fullPath then PathSegmentTags(directory)
    else [Lower(LastFolder(directory))]
  }

  /** The suggestions `update_suggested_tags` shows: the generated ones and
      the directory ones, without those the file already carries. The
      source goes through `set`, so the order is not modelled. */
  function DisplayedSuggestions(generated: seq<string>, directory: string, fullPath: bool, current: seq<string>): (r: set<string>)
    ensures forall t :: t in r ==> t !in current
    ensures forall t :: t in generated && t !in current ==> t in r
    ensures forall t :: t in DirectoryTags(directory, fullPath) && t !in current ==> t in r
    ensures forall t :: t in r ==> t in generated || t in DirectoryTags(directory, fullPath)
  {
    set t | t in generated + DirectoryTags(directory, fullPath) && t !in current
  }

  /** In last-folder mode a file directly under "/Photos" is offered
      "photos". */
  lemma LastFolderExample()
    ensures DirectoryTags("/Photos", false) == ["photos"]
  {
    var d := "/Photos";
    assert d[0] == '/' && d[1] == 'P' && d[2] == 'h' && d[3] == 'o' && d[4] == 't' && d[5] == 'o' && d[6] == 's';
    assert FileType.LastIndexOf(d, '/') == 0;
    assert d[1..] == "Photos";
    assert Lower("Photos") == "photos";
  }
}
