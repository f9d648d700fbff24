// Model of the search path of apps/server/src/db/session-data-access.ts: prefix parsing,
// LIKE escaping, and the conditions and parameters of the query that `search` builds.
//
// SQL's ILIKE is modelled by a LIKE matcher with backslash escape over an arbitrary
// relation `same` on characters, which stands for the database's case folding.
module SessionSearch {
  import opened Wrappers
  import opened Text

  // ---------------------------------------------------------------- LIKE

  // A pattern that ends in a lone escape matches nothing.
  ghost predicate Like(p: string, s: string, same: (char, char) -> bool)
    decreases |p| + |s|
  {
    if p == "" then s == ""
    else if p[0] == '%' then Like(p[1..], s, same) || (s != "" && Like(p, s[1..], same))
    else if p[0] == '_' then s != "" && Like(p[1..], s[1..], same)
    else if p[0] == '\\' then |p| >= 2 && s != "" && same(p[1], s[0]) && Like(p[2..], s[1..], same)
    else s != "" && same(p[0], s[0]) && Like(p[1..], s[1..], same)
  }

  function EscapedChar(c: char): string {
    if c == '\\' || c == '%' || c == '_' then ['\\', c] else [c]
  }

  function EscapeIlike(t: string): string {
    if t == "" then "" else EscapedChar(t[0]) + EscapeIlike(t[1..])
  }

  ghost predicate SameText(t: string, s: string, same: (char, char) -> bool) {
    |t| == |s| && forall i :: 0 <= i < |t| ==> same(t[i], s[i])
  }

  ghost predicate FoundAt(s: string, t: string, i: nat, same: (char, char) -> bool) {
    i + |t| <= |s| && SameText(t, s[i..i + |t|], same)
  }

  // s contains t as a literal substring, up to `same`.
  ghost predicate Contains(s: string, t: string, same: (char, char) -> bool) {
    exists i: nat :: FoundAt(s, t, i, same)
  }

  lemma EscapedFirst(t: string, p: string)
    requires t != ""
    ensures EscapeIlike(t) + p == EscapedChar(t[0]) + (EscapeIlike(t[1..]) + p)
  {
  }

  lemma LikeChar(c: char, rest: string, s: string, same: (char, char) -> bool)
    ensures Like(EscapedChar(c) + rest, s, same) <==> s != "" && same(c, s[0]) && Like(rest, s[1..], same)
  {
    assert (EscapedChar(c) + rest)[|EscapedChar(c)|..] == rest;
  }

  lemma LikeFirst(t: string, p: string, s: string, same: (char, char) -> bool)
    requires t != ""
    ensures Like(EscapeIlike(t) + p, s, same) <==>
      s != "" && same(t[0], s[0]) && Like(EscapeIlike(t[1..]) + p, s[1..], same)
  {
    EscapedFirst(t, p);
    LikeChar(t[0], EscapeIlike(t[1..]) + p, s, same);
  }

  // The text at the head of s, and the pattern behind it.
  ghost predicate Ahead(t: string, p: string, s: string, same: (char, char) -> bool) {
    |t| <= |s| && SameText(t, s[..|t|], same) && Like(p, s[|t|..], same)
  }

  lemma AheadFirst(t: string, p: string, s: string, same: (char, char) -> bool)
    requires t != "" && s != ""
    ensures Ahead(t, p, s, same) <==> same(t[0], s[0]) && Ahead(t[1..], p, s[1..], same)
  {
    SameTextStep(t, s, same);
    assert |t| <= |s| ==> s[1..][|t| - 1..] == s[|t|..];
  }

  // An escaped text in a pattern consumes exactly itself.
  lemma {:induction false} LikeEscaped(t: string, p: string, s: string, same: (char, char) -> bool)
    ensures Like(EscapeIlike(t) + p, s, same) <==> Ahead(t, p, s, same)
    decreases |t|
  {
    if t == "" {
      assert EscapeIlike(t) + p == p && s[0..] == s;
    } else {
      LikeFirst(t, p, s, same);
      if s != "" {
        LikeEscaped(t[1..], p, s[1..], same);
        AheadFirst(t, p, s, same);
      }
    }
  }

  lemma SameTextStep(t: string, s: string, same: (char, char) -> bool)
    requires t != "" && s != ""
    ensures |t| <= |s| ==>
      (SameText(t, s[..|t|], same) <==> same(t[0], s[0]) && SameText(t[1..], s[1..][..|t| - 1], same))
  {
    if |t| <= |s| {
      var a, b := s[..|t|], s[1..][..|t| - 1];
      assert forall i :: 0 <= i < |t| - 1 ==> b[i] == a[i + 1] && t[1..][i] == t[i + 1];
      if same(t[0], s[0]) && SameText(t[1..], b, same) {
        forall i | 0 <= i < |t| ensures same(t[i], a[i]) {
          if i > 0 {
            assert same(t[1..][i - 1], b[i - 1]);
          }
        }
      }
      if SameText(t, a, same) {
        forall i | 0 <= i < |t| - 1 ensures same(t[1..][i], b[i]) {
          assert same(t[i + 1], a[i + 1]);
        }
      }
    }
  }

  // A leading % lets the rest of the pattern start anywhere.
  lemma {:induction false} LikeAnywhere(p: string, s: string, same: (char, char) -> bool)
    ensures Like("%" + p, s, same) <==> exists i :: 0 <= i <= |s| && Like(p, s[i..], same)
    decreases |s|
  {
    assert ("%" + p)[1..] == p;
    assert s[0..] == s;
    if s != "" {
      LikeAnywhere(p, s[1..], same);
      forall i | 1 <= i <= |s| ensures s[i..] == s[1..][i - 1..] {
      }
      if exists i :: 0 <= i <= |s[1..]| && Like(p, s[1..][i..], same) {
        var i :| 0 <= i <= |s[1..]| && Like(p, s[1..][i..], same);
        assert s[1..][i..] == s[i + 1..];
      }
      if exists i :: 0 <= i <= |s| && Like(p, s[i..], same) {
        var i :| 0 <= i <= |s| && Like(p, s[i..], same);
        if i > 0 {
          assert s[i..] == s[1..][i - 1..];
        }
      }
    }
  }

  lemma {:induction false} LikeAnything(s: string, same: (char, char) -> bool)
    ensures Like("%", s, same)
    decreases |s|
  {
    if s != "" {
      LikeAnything(s[1..], same);
    }
  }

  // An escaped text between two percent signs is literal containment.
  lemma EscapedIsContainment(t: string, s: string, same: (char, char) -> bool)
    ensures Like("%" + EscapeIlike(t) + "%", s, same) <==> Contains(s, t, same)
  {
    assert "%" + EscapeIlike(t) + "%" == "%" + (EscapeIlike(t) + "%");
    LikeAnywhere(EscapeIlike(t) + "%", s, same);
    forall i: nat | i <= |s|
      ensures Like(EscapeIlike(t) + "%", s[i..], same) <==> FoundAt(s, t, i, same)
    {
      LikeEscaped(t, "%", s[i..], same);
      if |t| <= |s[i..]| {
        assert s[i..][..|t|] == s[i..i + |t|];
        LikeAnything(s[i..][|t|..], same);
      }
    }
    if Contains(s, t, same) {
      var i: nat :| FoundAt(s, t, i, same);
      assert Like(EscapeIlike(t) + "%", s[i..], same);
    }
  }

  // The escaped text alone is literal equality.
  lemma EscapedIsEquality(t: string, s: string, same: (char, char) -> bool)
    ensures Like(EscapeIlike(t), s, same) <==> SameText(t, s, same)
  {
    LikeEscaped(t, "", s, same);
    assert EscapeIlike(t) + "" == EscapeIlike(t);
    if |t| == |s| {
      assert s[..|t|] == s;
    }
  }

  // Without escaping this fails: a lone underscore finds every one-character text.
  lemma UnescapedIsNotLiteral(c: char, same: (char, char) -> bool)
    requires !same('_', c)
    ensures Like("_", [c], same) && !Contains([c], "_", same)
    ensures !Like(EscapeIlike("_"), [c], same)
  {
    assert Like("", "", same);
    assert [c][1..] == "" && "_"[1..] == "";
    EscapedIsEquality("_", [c], same);
    forall i: nat ensures !FoundAt([c], "_", i, same) {
      if i == 0 {
        assert [c][0..1][0] == c;
      }
    }
  }

  // ---------------------------------------------------------------- prefix filters

  datatype Filter = TagFilter | FolderFilter | PinnedFilter | ArchivedFilter

  datatype ParsedSearchQuery = ParsedSearchQuery(
    tag: Option<string>, folder: Option<string>, pinned: Option<bool>, archived: Option<bool>, text: string)

  function LowerChar(c: char): char {
    if 'A' <= c <= 'Z' then c - 'A' + 'a' else c
  }

  function Lower(s: string): (r: string)
    ensures |r| == |s|
  {
    seq(|s|, i requires 0 <= i < |s| => LowerChar(s[i]))
  }

  function PrefixOf(f: Filter): string {
    match f
    case TagFilter => "tag:" case FolderFilter => "folder:"
    case PinnedFilter => "pinned:" case ArchivedFilter => "archived:"
  }

  predicate HasPrefix(token: string, f: Filter) {
    |token| > |PrefixOf(f)| && Lower(token[..|PrefixOf(f)|]) == PrefixOf(f)
  }

  // The pattern ^(tag|folder|pinned|archived):(.+)$ with the i flag, on a token without blanks.
  function MatchPrefix(token: string): (r: Option<Filter>)
    ensures r.Some? ==> HasPrefix(token, r.value)
  {
    if HasPrefix(token, TagFilter) then Some(TagFilter)
    else if HasPrefix(token, FolderFilter) then Some(FolderFilter)
    else if HasPrefix(token, PinnedFilter) then Some(PinnedFilter)
    else if HasPrefix(token, ArchivedFilter) then Some(ArchivedFilter)
    else None
  }

  function ValueOf(token: string, f: Filter): string
    requires HasPrefix(token, f)
  {
    token[|PrefixOf(f)|..]
  }

  // The value of the last token that carries this filter.
  ghost function LastValue(tokens: seq<string>, f: Filter): Option<string> {
    if tokens == [] then None
    else
      var last := tokens[|tokens| - 1];
      if MatchPrefix(last) == Some(f) then Some(ValueOf(last, f)) else LastValue(tokens[..|tokens| - 1], f)
  }

  ghost function FreeTokens(tokens: seq<string>): (r: seq<string>)
    ensures forall w :: w in r ==> w in tokens
  {
    if tokens == [] then []
    else
      var last := tokens[|tokens| - 1];
      FreeTokens(tokens[..|tokens| - 1]) + if MatchPrefix(last).None? then [last] else []
  }

  function IsOn(value: string): bool {
    Lower(value) != "false"
  }

  ghost function Flag(value: Option<string>): Option<bool> {
    if value.None? then None else Some(IsOn(value.value))
  }

  // The filters of a query: the last value given for each.
  ghost predicate FiltersRead(q: ParsedSearchQuery, tokens: seq<string>) {
    && q.tag == LastValue(tokens, TagFilter)
    && q.folder == LastValue(tokens, FolderFilter)
    && q.pinned == Flag(LastValue(tokens, PinnedFilter))
    && q.archived == Flag(LastValue(tokens, ArchivedFilter))
  }

  // The reading of a query: its filters, and the other words in order as free text.
  ghost function ReadingOf(tokens: seq<string>): ParsedSearchQuery {
    ParsedSearchQuery(
      LastValue(tokens, TagFilter), LastValue(tokens, FolderFilter),
      Flag(LastValue(tokens, PinnedFilter)), Flag(LastValue(tokens, ArchivedFilter)),
      Join(FreeTokens(tokens)))
  }

  // ---- the reading in terms of the words themselves

  // The word in small letters, or with some of its letters large.
  ghost predicate SameLetters(s: string, word: string) {
    && |s| == |word|
    && forall i :: 0 <= i < |word| ==>
         s[i] == word[i] || ('A' <= s[i] <= 'Z' && s[i] as int + 32 == word[i] as int)
  }

  // The token starts with this word and goes on behind it.
  ghost predicate Carries(token: string, word: string) {
    |token| > |word| && SameLetters(token[..|word|], word)
  }

  ghost predicate LastToCarry(tokens: seq<string>, word: string, k: int) {
    0 <= k < |tokens| && Carries(tokens[k], word) && forall j :: k < j < |tokens| ==> !Carries(tokens[j], word)
  }

  ghost predicate NoneCarries(tokens: seq<string>, word: string) {
    forall k :: 0 <= k < |tokens| ==> !Carries(tokens[k], word)
  }

  // What the last token that carries the word has behind it.
  ghost predicate IsValueBehind(value: Option<string>, tokens: seq<string>, word: string) {
    && (value.None? ==> NoneCarries(tokens, word))
    && (value.Some? ==> exists k :: LastToCarry(tokens, word, k) && value.value == tokens[k][|word|..])
  }

  // Off if that is the word false, and on otherwise.
  ghost predicate IsFlagBehind(flag: Option<bool>, tokens: seq<string>, word: string) {
    && (flag.None? ==> NoneCarries(tokens, word))
    && (flag.Some? ==>
          exists k :: LastToCarry(tokens, word, k) && flag.value == !SameLetters(tokens[k][|word|..], "false"))
  }

  ghost function Free(tokens: seq<string>): seq<string> {
    if tokens == [] then []
    else if
      || Carries(tokens[0], "tag:") || Carries(tokens[0], "folder:")
      || Carries(tokens[0], "pinned:") || Carries(tokens[0], "archived:")
    then Free(tokens[1..])
    else [tokens[0]] + Free(tokens[1..])
  }

  lemma LowerIs(s: string, word: string)
    requires forall i :: 0 <= i < |word| ==> !('A' <= word[i] <= 'Z')
    ensures Lower(s) == word <==> SameLetters(s, word)
  {
    if SameLetters(s, word) {
      forall i | 0 <= i < |word| ensures Lower(s)[i] == word[i] {
        assert s[i] == word[i] || ('A' <= s[i] <= 'Z' && s[i] as int + 32 == word[i] as int);
      }
    }
    if Lower(s) == word {
      forall i | 0 <= i < |word|
        ensures s[i] == word[i] || ('A' <= s[i] <= 'Z' && s[i] as int + 32 == word[i] as int)
      {
        assert Lower(s)[i] == LowerChar(s[i]);
      }
    }
  }

  lemma PrefixesAre(f: Filter, token: string)
    ensures PrefixOf(f) ==
      match f
      case TagFilter => "tag:"
      case FolderFilter => "folder:"
      case PinnedFilter => "pinned:"
      case ArchivedFilter => "archived:"
    ensures HasPrefix(token, f) <==> Carries(token, PrefixOf(f))
  {
    if |token| > |PrefixOf(f)| {
      LowerIs(token[..|PrefixOf(f)|], PrefixOf(f));
    }
  }

  lemma OnePrefix(token: string, f: Filter, g: Filter)
    requires HasPrefix(token, f) && HasPrefix(token, g)
    ensures f == g
  {
    PrefixesAre(f, token);
    PrefixesAre(g, token);
    assert LowerChar(token[0]) == Lower(token[..|PrefixOf(f)|])[0];
    assert LowerChar(token[0]) == Lower(token[..|PrefixOf(g)|])[0];
  }

  lemma MatchIff(token: string, f: Filter)
    ensures MatchPrefix(token) == Some(f) <==> Carries(token, PrefixOf(f))
  {
    PrefixesAre(f, token);
    if HasPrefix(token, f) && MatchPrefix(token).Some? {
      OnePrefix(token, f, MatchPrefix(token).value);
    }
  }

  lemma LastOfMore(front: seq<string>, last: string, word: string)
    ensures Carries(last, word) ==> LastToCarry(front + [last], word, |front|)
    ensures forall k :: !Carries(last, word) && LastToCarry(front, word, k) ==> LastToCarry(front + [last], word, k)
    ensures NoneCarries(front + [last], word) <==> NoneCarries(front, word) && !Carries(last, word)
  {
    var tokens := front + [last];
    assert tokens[|front|] == last;
    assert forall k :: 0 <= k < |front| ==> tokens[k] == front[k];
  }

  lemma ValueStays(front: seq<string>, last: string, word: string, value: Option<string>)
    requires !Carries(last, word) && IsValueBehind(value, front, word)
    ensures IsValueBehind(value, front + [last], word)
  {
    LastOfMore(front, last, word);
    if value.Some? {
      var k :| LastToCarry(front, word, k) && value.value == front[k][|word|..];
      assert LastToCarry(front + [last], word, k) && (front + [last])[k] == front[k];
    }
  }

  lemma ValueTaken(front: seq<string>, last: string, word: string)
    requires Carries(last, word)
    ensures IsValueBehind(Some(last[|word|..]), front + [last], word)
  {
    LastOfMore(front, last, word);
    assert (front + [last])[|front|] == last;
  }

  lemma {:induction false} LastValueIs(tokens: seq<string>, f: Filter)
    ensures IsValueBehind(LastValue(tokens, f), tokens, PrefixOf(f))
  {
    if tokens != [] {
      var front, last := tokens[..|tokens| - 1], tokens[|tokens| - 1];
      assert front + [last] == tokens;
      MatchIff(last, f);
      if Carries(last, PrefixOf(f)) {
        ValueTaken(front, last, PrefixOf(f));
      } else {
        LastValueIs(front, f);
        ValueStays(front, last, PrefixOf(f), LastValue(front, f));
      }
    }
  }

  lemma FlagOfValue(value: Option<string>, tokens: seq<string>, word: string)
    requires IsValueBehind(value, tokens, word)
    ensures IsFlagBehind(Flag(value), tokens, word)
  {
    if value.Some? {
      var k :| LastToCarry(tokens, word, k) && value.value == tokens[k][|word|..];
      LowerIs(tokens[k][|word|..], "false");
    }
  }

  lemma FlagIs(tokens: seq<string>, f: Filter)
    ensures IsFlagBehind(Flag(LastValue(tokens, f)), tokens, PrefixOf(f))
  {
    LastValueIs(tokens, f);
    FlagOfValue(LastValue(tokens, f), tokens, PrefixOf(f));
  }

  lemma IsFree(token: string)
    ensures MatchPrefix(token).None? <==>
      && !Carries(token, "tag:") && !Carries(token, "folder:")
      && !Carries(token, "pinned:") && !Carries(token, "archived:")
  {
    MatchIff(token, TagFilter);
    MatchIff(token, FolderFilter);
    MatchIff(token, PinnedFilter);
    MatchIff(token, ArchivedFilter);
  }

  lemma {:induction false} FreeOfMore(front: seq<string>, last: string)
    ensures Free(front + [last]) == Free(front) + Free([last])
  {
    var tokens := front + [last];
    if front == [] {
      assert tokens == [last];
    } else {
      assert tokens[1..] == front[1..] + [last];
      FreeOfMore(front[1..], last);
    }
  }

  lemma {:induction false} FreeTokensAre(tokens: seq<string>)
    ensures FreeTokens(tokens) == Free(tokens)
  {
    if tokens != [] {
      var front, last := tokens[..|tokens| - 1], tokens[|tokens| - 1];
      FreeTokensAre(front);
      FreeOfMore(front, last);
      IsFree(last);
      assert front + [last] == tokens;
      assert [last][1..] == [];
    }
  }

  // The last value of each filter, in whatever letters it is written; the words that carry
  // none, in order, are the free text.
  lemma ReadingIs(tokens: seq<string>)
    ensures
      var q := ReadingOf(tokens);
      && IsValueBehind(q.tag, tokens, "tag:") && IsValueBehind(q.folder, tokens, "folder:")
      && IsFlagBehind(q.pinned, tokens, "pinned:") && IsFlagBehind(q.archived, tokens, "archived:")
      && q.text == Join(Free(tokens))
  {
    LastValueIs(tokens, TagFilter);
    LastValueIs(tokens, FolderFilter);
    FlagIs(tokens, PinnedFilter);
    FlagIs(tokens, ArchivedFilter);
    FreeTokensAre(tokens);
  }

  // The filters and the free words of these tokens.
  ghost predicate IsReading(parsed: ParsedSearchQuery, rest: seq<string>, tokens: seq<string>) {
    rest == FreeTokens(tokens) && FiltersRead(parsed, tokens)
  }

  // One token of the loop: consumed as a filter, or kept as free text.
  method TakeToken(token: string, parsed: ParsedSearchQuery, rest: seq<string>, ghost before: seq<string>)
    returns (parsed': ParsedSearchQuery, rest': seq<string>)
    requires IsReading(parsed, rest, before)
    ensures IsReading(parsed', rest', before + [token])
  {
    parsed', rest' := parsed, rest;
    assert (before + [token])[..|before|] == before;
    match MatchPrefix(token)
    case None => rest' := rest + [token];
    case Some(TagFilter) => parsed' := parsed.(tag := Some(ValueOf(token, TagFilter)));
    case Some(FolderFilter) => parsed' := parsed.(folder := Some(ValueOf(token, FolderFilter)));
    case Some(PinnedFilter) => parsed' := parsed.(pinned := Some(IsOn(ValueOf(token, PinnedFilter))));
    case Some(ArchivedFilter) => parsed' := parsed.(archived := Some(IsOn(ValueOf(token, ArchivedFilter))));
  }

  lemma Prefixes<T>(s: seq<T>)
    ensures s[..0] == [] && s[..|s|] == s
    ensures forall i :: 0 <= i < |s| ==> s[..i + 1] == s[..i] + [s[i]]
  {
  }

  // The loop over the tokens.
  method TakeTokens(tokens: seq<string>) returns (parsed: ParsedSearchQuery, rest: seq<string>)
    ensures IsReading(parsed, rest, tokens)
  {
    rest := [];
    parsed := ParsedSearchQuery(None, None, None, None, "");
    Prefixes(tokens);
    for i := 0 to |tokens|
      invariant IsReading(parsed, rest, tokens[..i])
    {
      parsed, rest := TakeToken(tokens[i], parsed, rest, tokens[..i]);
    }
  }

  method ParseSearchQuery(query: string) returns (parsed: ParsedSearchQuery)
    ensures parsed == ReadingOf(Words(query))
  {
    var rest;
    parsed, rest := TakeTokens(Words(query));
    parsed := parsed.(text := Join(rest));
  }

  // ---------------------------------------------------------------- search

  // What the query can see of a session row and the rows joined to it.
  datatype Session = Session(
    userId: string,
    title: Option<string>,
    tags: seq<string>,
    folder: Option<string>,
    pinned: bool,
    archived: bool,
    contents: seq<string>)

  datatype Param = TextParam(text: string) | LimitParam(limit: int)

  // The conditions `search` joins with AND; the number is the position $n of the parameter.
  datatype Condition =
    | UserIs(n: nat)
    | TagLike(n: nat)
    | FolderLike(n: nat)
    | PinnedIs(on: bool)
    | ArchivedIs(on: bool)
    | TextLike(n: nat)

  ghost predicate IsText(values: seq<Param>, n: nat) {
    1 <= n <= |values| && values[n - 1].TextParam?
  }

  ghost predicate AnyLike(pattern: string, texts: seq<string>, same: (char, char) -> bool) {
    exists i :: 0 <= i < |texts| && Like(pattern, texts[i], same)
  }

  ghost predicate Holds(c: Condition, values: seq<Param>, s: Session, same: (char, char) -> bool) {
    match c
    case UserIs(n) => IsText(values, n) && s.userId == values[n - 1].text
    case TagLike(n) => IsText(values, n) && AnyLike(values[n - 1].text, s.tags, same)
    case FolderLike(n) => IsText(values, n) && s.folder.Some? && Like(values[n - 1].text, s.folder.value, same)
    case PinnedIs(on) => s.pinned == on
    case ArchivedIs(on) => s.archived == on
    case TextLike(n) =>
      && IsText(values, n)
      && var p := values[n - 1].text;
         || (s.title.Some? && Like(p, s.title.value, same))
         || AnyLike(p, s.contents, same)
         || AnyLike(p, s.tags, same)
  }

  ghost predicate AllHold(cs: seq<Condition>, values: seq<Param>, s: Session, same: (char, char) -> bool) {
    forall i :: 0 <= i < |cs| ==> Holds(cs[i], values, s, same)
  }

  // What a parsed query asks for, in terms of literal text.
  ghost predicate Wanted(q: ParsedSearchQuery, userId: string, s: Session, same: (char, char) -> bool) {
    && s.userId == userId
    && (q.tag.Some? ==> exists i :: 0 <= i < |s.tags| && SameText(q.tag.value, s.tags[i], same))
    && (q.folder.Some? ==> s.folder.Some? && Contains(s.folder.value, q.folder.value, same))
    && (q.pinned.Some? ==> s.pinned == q.pinned.value)
    && (q.archived.Some? ==> s.archived == q.archived.value)
    && (q.text != "" ==>
          || (s.title.Some? && Contains(s.title.value, q.text, same))
          || (exists i :: 0 <= i < |s.contents| && Contains(s.contents[i], q.text, same))
          || (exists i :: 0 <= i < |s.tags| && Contains(s.tags[i], q.text, same)))
  }

  // ---- the query as built: its conditions, and the parameters they refer to by position

  function ContainsPattern(t: string): string {
    "%" + EscapeIlike(t) + "%"
  }

  function TagAt(): nat { 2 }

  function FolderAt(q: ParsedSearchQuery): nat {
    TagAt() + if q.tag.Some? then 1 else 0
  }

  function TextAt(q: ParsedSearchQuery): nat {
    FolderAt(q) + if q.folder.Some? then 1 else 0
  }

  function LimitAt(q: ParsedSearchQuery): nat {
    TextAt(q) + if q.text != "" then 1 else 0
  }

  function AddIf<T>(list: seq<T>, present: bool, item: T): seq<T> {
    if present then list + [item] else list
  }

  function ConditionsOf(q: ParsedSearchQuery): seq<Condition> {
    var c0 := [UserIs(1)];
    var c1 := AddIf(c0, q.tag.Some?, TagLike(TagAt()));
    var c2 := AddIf(c1, q.folder.Some?, FolderLike(FolderAt(q)));
    var c3 := AddIf(c2, q.pinned.Some?, PinnedIs(q.pinned.GetOr(false)));
    var c4 := AddIf(c3, q.archived.Some?, ArchivedIs(q.archived.GetOr(false)));
    AddIf(c4, q.text != "", TextLike(TextAt(q)))
  }

  function ParamsOf(q: ParsedSearchQuery, userId: string, limit: int): seq<Param> {
    var v0 := [TextParam(userId)];
    var v1 := AddIf(v0, q.tag.Some?, TextParam(EscapeIlike(q.tag.GetOr(""))));
    var v2 := AddIf(v1, q.folder.Some?, TextParam(ContainsPattern(q.folder.GetOr(""))));
    var v3 := AddIf(v2, q.text != "", TextParam(ContainsPattern(q.text)));
    v3 + [LimitParam(limit)]
  }

  // `search` up to the point where the query is sent.
  method BuildSearch(userId: string, query: string, limit: int)
    returns (conditions: seq<Condition>, values: seq<Param>, limitAt: nat)
    ensures
      var q := ReadingOf(Words(query));
      conditions == ConditionsOf(q) && values == ParamsOf(q, userId, limit) && limitAt == LimitAt(q)
  {
    var parsed := ParseSearchQuery(query);
    JoinedIsTrimmed(FreeTokens(Words(query)));
    conditions, values, limitAt := CollectConditions(userId, parsed, Trim(parsed.text), limit);
  }

  method CollectConditions(userId: string, parsed: ParsedSearchQuery, text: string, limit: int)
    returns (conditions: seq<Condition>, values: seq<Param>, i: nat)
    requires text == parsed.text
    ensures conditions == ConditionsOf(parsed) && values == ParamsOf(parsed, userId, limit) && i == LimitAt(parsed)
  {
    conditions, values, i := [UserIs(1)], [TextParam(userId)], 2;
    if parsed.tag.Some? {
      values := values + [TextParam(EscapeIlike(parsed.tag.value))];
      conditions := conditions + [TagLike(i)];
      i := i + 1;
    }
    if parsed.folder.Some? {
      values := values + [TextParam(ContainsPattern(parsed.folder.value))];
      conditions := conditions + [FolderLike(i)];
      i := i + 1;
    }
    if parsed.pinned.Some? {
      conditions := conditions + [PinnedIs(parsed.pinned.value)];
    }
    if parsed.archived.Some? {
      conditions := conditions + [ArchivedIs(parsed.archived.value)];
    }
    if text != "" {
      values := values + [TextParam(ContainsPattern(text))];
      conditions := conditions + [TextLike(i)];
      i := i + 1;
    }
    values := values + [LimitParam(limit)];
  }

  lemma ParamPositions(q: ParsedSearchQuery, userId: string, limit: int)
    ensures
      var values := ParamsOf(q, userId, limit);
      && |values| == LimitAt(q) && values[LimitAt(q) - 1] == LimitParam(limit)
      && values[0] == TextParam(userId)
      && (q.tag.Some? ==> values[TagAt() - 1] == TextParam(EscapeIlike(q.tag.value)))
      && (q.folder.Some? ==> values[FolderAt(q) - 1] == TextParam(ContainsPattern(q.folder.value)))
      && (q.text != "" ==> values[TextAt(q) - 1] == TextParam(ContainsPattern(q.text)))
  {
  }

  lemma AnyEqual(t: string, texts: seq<string>, same: (char, char) -> bool)
    ensures AnyLike(EscapeIlike(t), texts, same) <==>
      exists i :: 0 <= i < |texts| && SameText(t, texts[i], same)
  {
    forall i | 0 <= i < |texts|
      ensures Like(EscapeIlike(t), texts[i], same) <==> SameText(t, texts[i], same)
    {
      EscapedIsEquality(t, texts[i], same);
    }
  }

  lemma AnyContains(t: string, texts: seq<string>, same: (char, char) -> bool)
    ensures AnyLike(ContainsPattern(t), texts, same) <==>
      exists i :: 0 <= i < |texts| && Contains(texts[i], t, same)
  {
    forall i | 0 <= i < |texts|
      ensures Like(ContainsPattern(t), texts[i], same) <==> Contains(texts[i], t, same)
    {
      EscapedIsContainment(t, texts[i], same);
    }
  }

  lemma AllHoldConcat(a: seq<Condition>, b: seq<Condition>, values: seq<Param>, s: Session, same: (char, char) -> bool)
    ensures AllHold(a + b, values, s, same) <==> AllHold(a, values, s, same) && AllHold(b, values, s, same)
  {
    if AllHold(a + b, values, s, same) {
      forall i | 0 <= i < |a| ensures Holds(a[i], values, s, same) {
        assert (a + b)[i] == a[i];
      }
      forall i | 0 <= i < |b| ensures Holds(b[i], values, s, same) {
        assert (a + b)[|a| + i] == b[i];
      }
    }
  }

  // One optional condition of the list.
  lemma AllHoldOptional(
    cs: seq<Condition>, present: bool, c: Condition, values: seq<Param>, s: Session, same: (char, char) -> bool)
    ensures AllHold(AddIf(cs, present, c), values, s, same) <==>
      AllHold(cs, values, s, same) && (present ==> Holds(c, values, s, same))
  {
    AllHoldConcat(cs, [c], values, s, same);
    assert [c][0] == c;
  }

  lemma HoldsOfText(q: ParsedSearchQuery, values: seq<Param>, s: Session, same: (char, char) -> bool, n: nat)
    requires 1 <= n <= |values| && values[n - 1] == TextParam(ContainsPattern(q.text))
    ensures Holds(TextLike(n), values, s, same) <==>
      || (s.title.Some? && Contains(s.title.value, q.text, same))
      || (exists i :: 0 <= i < |s.contents| && Contains(s.contents[i], q.text, same))
      || (exists i :: 0 <= i < |s.tags| && Contains(s.tags[i], q.text, same))
  {
    if s.title.Some? {
      EscapedIsContainment(q.text, s.title.value, same);
    }
    AnyContains(q.text, s.contents, same);
    AnyContains(q.text, s.tags, same);
  }

  lemma AllConditions(q: ParsedSearchQuery, values: seq<Param>, s: Session, same: (char, char) -> bool)
    ensures AllHold(ConditionsOf(q), values, s, same) <==>
      && Holds(UserIs(1), values, s, same)
      && (q.tag.Some? ==> Holds(TagLike(TagAt()), values, s, same))
      && (q.folder.Some? ==> Holds(FolderLike(FolderAt(q)), values, s, same))
      && (q.pinned.Some? ==> Holds(PinnedIs(q.pinned.value), values, s, same))
      && (q.archived.Some? ==> Holds(ArchivedIs(q.archived.value), values, s, same))
      && (q.text != "" ==> Holds(TextLike(TextAt(q)), values, s, same))
  {
    var c0 := [UserIs(1)];
    var c1 := AddIf(c0, q.tag.Some?, TagLike(TagAt()));
    var c2 := AddIf(c1, q.folder.Some?, FolderLike(FolderAt(q)));
    var c3 := AddIf(c2, q.pinned.Some?, PinnedIs(q.pinned.GetOr(false)));
    var c4 := AddIf(c3, q.archived.Some?, ArchivedIs(q.archived.GetOr(false)));
    AllHoldConcat([], c0, values, s, same);
    assert [] + c0 == c0 && c0[0] == UserIs(1);
    AllHoldOptional(c0, q.tag.Some?, TagLike(TagAt()), values, s, same);
    AllHoldOptional(c1, q.folder.Some?, FolderLike(FolderAt(q)), values, s, same);
    AllHoldOptional(c2, q.pinned.Some?, PinnedIs(q.pinned.GetOr(false)), values, s, same);
    AllHoldOptional(c3, q.archived.Some?, ArchivedIs(q.archived.GetOr(false)), values, s, same);
    AllHoldOptional(c4, q.text != "", TextLike(TextAt(q)), values, s, same);
  }

  // The query finds a session exactly when the session has the literal texts and flags the
  // user asked for, whatever characters those texts contain.
  lemma SearchIsLiteral(q: ParsedSearchQuery, userId: string, limit: int, s: Session, same: (char, char) -> bool)
    ensures AllHold(ConditionsOf(q), ParamsOf(q, userId, limit), s, same) <==> Wanted(q, userId, s, same)
  {
    var values := ParamsOf(q, userId, limit);
    ParamPositions(q, userId, limit);
    AllConditions(q, values, s, same);
    if q.tag.Some? {
      AnyEqual(q.tag.value, s.tags, same);
    }
    if q.folder.Some? && s.folder.Some? {
      EscapedIsContainment(q.folder.value, s.folder.value, same);
    }
    if q.text != "" {
      HoldsOfText(q, values, s, same, TextAt(q));
    }
  }
}
