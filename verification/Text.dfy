// Whitespace handling shared by the string-level components. A `char` stands for one
// UTF-16 code unit.
module Text {

  // JavaScript white space: what trimming and splitting treat as blank.
  predicate IsSpace(c: char) {
    || '\t' <= c <= '\r' || c == ' '
    || c == '\U{00A0}' || c == '\U{1680}' || '\U{2000}' <= c <= '\U{200A}'
    || c == '\U{2028}' || c == '\U{2029}' || c == '\U{202F}' || c == '\U{205F}'
    || c == '\U{3000}' || c == '\U{FEFF}'
  }

  // The code units of white space and line terminators in sections 12.2 and 12.3 of ECMA-262.
  lemma SpacesAre(c: char)
    ensures IsSpace(c) <==>
      c as int in {
        0x9, 0xA, 0xB, 0xC, 0xD, 0x20, 0xA0, 0x1680, 0x2000, 0x2001, 0x2002, 0x2003, 0x2004, 0x2005, 0x2006,
        0x2007, 0x2008, 0x2009, 0x200A, 0x2028, 0x2029, 0x202F, 0x205F, 0x3000, 0xFEFF}
  {
  }

  ghost predicate Blank(s: string) {
    forall c :: c in s ==> IsSpace(c)
  }

  function TrimStart(s: string): (r: string)
    ensures |r| <= |s|
    ensures r == "" || !IsSpace(r[0])
  {
    if s == "" then "" else if IsSpace(s[0]) then TrimStart(s[1..]) else s
  }

  function TrimEnd(s: string): (r: string)
    ensures |r| <= |s|
    ensures r == "" || !IsSpace(r[|r| - 1])
    ensures r <= s
  {
    if s == "" then "" else if IsSpace(s[|s| - 1]) then TrimEnd(s[..|s| - 1]) else s
  }

  function Trim(s: string): (r: string)
    ensures |r| <= |s|
  {
    TrimEnd(TrimStart(s))
  }

  // No blanks at either end.
  ghost predicate Trimmed(s: string) {
    s == "" || (!IsSpace(s[0]) && !IsSpace(s[|s| - 1]))
  }

  lemma {:induction false} TrimStartPad(pad: string, s: string)
    requires Blank(pad)
    requires s == "" || !IsSpace(s[0])
    ensures TrimStart(pad + s) == s
  {
    if pad == "" {
      assert pad + s == s;
    } else {
      assert pad[0] in pad;
      assert (pad + s)[1..] == pad[1..] + s;
      TrimStartPad(pad[1..], s);
    }
  }

  lemma {:induction false} TrimEndPad(s: string, pad: string)
    requires Blank(pad)
    requires s == "" || !IsSpace(s[|s| - 1])
    ensures TrimEnd(s + pad) == s
  {
    if pad == "" {
      assert s + pad == s;
    } else {
      assert pad[|pad| - 1] in pad;
      assert (s + pad)[..|s + pad| - 1] == s + pad[..|pad| - 1];
      TrimEndPad(s, pad[..|pad| - 1]);
    }
  }

  // Trimming strips exactly the blanks around a text.
  lemma TrimPadded(pre: string, s: string, post: string)
    requires Blank(pre) && Blank(post) && Trimmed(s) && s != ""
    ensures Trim(pre + s + post) == s
  {
    assert pre + s + post == pre + (s + post);
    TrimStartPad(pre, s + post);
    TrimEndPad(s, post);
  }

  lemma TrimBefore(pre: string, s: string)
    requires Blank(pre) && Trimmed(s) && s != ""
    ensures Trim(pre + s) == s
  {
    TrimPadded(pre, s, "");
    assert pre + s + "" == pre + s;
  }

  lemma TrimAfter(s: string, post: string)
    requires Blank(post) && Trimmed(s) && s != ""
    ensures Trim(s + post) == s
  {
    TrimPadded("", s, post);
    assert "" + s + post == s + post;
  }

  lemma TrimOfTrimmed(s: string)
    requires Trimmed(s)
    ensures Trim(s) == s
  {
    if s != "" {
      TrimAfter(s, "");
      assert s + "" == s;
    }
  }

  lemma TrimIsTrimmed(s: string)
    ensures Trimmed(Trim(s))
  {
    var t := TrimStart(s);
    assert Trim(s) <= t;
  }

  // What trimming takes off is blank.
  lemma {:induction false} TrimStartParts(s: string) returns (pre: string)
    ensures Blank(pre) && pre + TrimStart(s) == s
  {
    pre := "";
    if s != "" && IsSpace(s[0]) {
      var rest := TrimStartParts(s[1..]);
      pre := [s[0]] + rest;
      assert pre + TrimStart(s) == [s[0]] + (rest + TrimStart(s[1..]));
    }
  }

  lemma {:induction false} TrimEndParts(s: string) returns (post: string)
    ensures Blank(post) && TrimEnd(s) + post == s
  {
    post := "";
    if s != "" && IsSpace(s[|s| - 1]) {
      var rest := TrimEndParts(s[..|s| - 1]);
      post := rest + [s[|s| - 1]];
      assert TrimEnd(s) + post == (TrimEnd(s[..|s| - 1]) + rest) + [s[|s| - 1]];
    }
  }

  lemma TrimParts(s: string) returns (pre: string, post: string)
    ensures Blank(pre) && Blank(post) && pre + Trim(s) + post == s
  {
    pre := TrimStartParts(s);
    post := TrimEndParts(TrimStart(s));
    assert pre + Trim(s) + post == pre + (Trim(s) + post);
  }

  lemma BlankIffNothingLeft(s: string)
    ensures Trimmed(Trim(s)) && (Trim(s) == "" <==> Blank(s))
  {
    TrimIsTrimmed(s);
    var pre, post := TrimParts(s);
    if Trim(s) == "" {
      assert s == pre + post;
    }
    if Blank(s) {
      TrimStartPad(s, "");
      assert s + "" == s;
    }
  }

  // ---------------------------------------------------------------- words

  // Length of the run of non-blank characters at the start.
  function WordLength(s: string): (n: nat)
    ensures n <= |s|
    ensures forall i :: 0 <= i < n ==> !IsSpace(s[i])
    ensures n < |s| ==> IsSpace(s[n])
  {
    if s == "" || IsSpace(s[0]) then 0 else 1 + WordLength(s[1..])
  }

  // The stretches without blanks.
  function Words(s: string): (ws: seq<string>)
    ensures forall w :: w in ws ==> IsWord(w)
    decreases |s|
  {
    if s == "" then []
    else if IsSpace(s[0]) then Words(s[1..])
    else
      var n := WordLength(s);
      [s[..n]] + Words(s[n..])
  }

  predicate IsWord(w: string) {
    w != "" && forall i :: 0 <= i < |w| ==> !IsSpace(w[i])
  }

  // The words with one blank between them.
  function Join(ws: seq<string>): string {
    if ws == [] then "" else if |ws| == 1 then ws[0] else ws[0] + " " + Join(ws[1..])
  }

  lemma {:induction false} WordLengthOf(w: string, rest: string)
    requires forall i :: 0 <= i < |w| ==> !IsSpace(w[i])
    requires rest == "" || IsSpace(rest[0])
    ensures WordLength(w + rest) == |w|
  {
    if w == "" {
      assert w + rest == rest;
    } else {
      assert (w + rest)[1..] == w[1..] + rest;
      WordLengthOf(w[1..], rest);
    }
  }

  lemma WordsOfWord(w: string, rest: string)
    requires IsWord(w) && (rest == "" || IsSpace(rest[0]))
    ensures Words(w + rest) == [w] + Words(rest)
  {
    WordLengthOf(w, rest);
    assert (w + rest)[..|w|] == w && (w + rest)[|w|..] == rest;
    assert (w + rest)[0] == w[0];
  }

  // Splitting undoes joining.
  lemma {:induction false} WordsOfJoin(ws: seq<string>)
    requires forall w :: w in ws ==> IsWord(w)
    ensures Words(Join(ws)) == ws
  {
    if ws != [] {
      if |ws| == 1 {
        WordsOfWord(ws[0], "");
        assert ws[0] + "" == ws[0];
      } else {
        var rest := " " + Join(ws[1..]);
        assert ws[0] + " " + Join(ws[1..]) == ws[0] + rest;
        WordsOfWord(ws[0], rest);
        assert rest[1..] == Join(ws[1..]);
        WordsOfJoin(ws[1..]);
      }
    }
  }

  lemma {:induction false} JoinedEnds(ws: seq<string>)
    requires ws != [] && forall w :: w in ws ==> IsWord(w)
    ensures Join(ws) != "" && Trimmed(Join(ws))
  {
    assert IsWord(ws[0]);
    if |ws| > 1 {
      JoinedEnds(ws[1..]);
      var tail := Join(ws[1..]);
      assert Join(ws)[|Join(ws)| - 1] == tail[|tail| - 1];
    }
  }

  // Joined words are already trimmed.
  lemma JoinedIsTrimmed(ws: seq<string>)
    requires forall w :: w in ws ==> IsWord(w)
    ensures Trim(Join(ws)) == Join(ws)
  {
    if ws != [] {
      JoinedEnds(ws);
    }
    TrimOfTrimmed(Join(ws));
  }
}
