/** Cutting a DDL script into statements at the semicolons that separate them, and only there. */
module Splitter {
  import opened Common

  /** Where a character stands: in code, in a `--` comment, or in a quoted literal. */
  datatype Mode = Code | Comment | Literal

  /** The mode after the first character of s, read one character at a time with one to look ahead. */
  function Next(m: Mode, s: string): Mode
    requires s != []
  {
    match m
    case Comment => if s[0] == '\n' then Code else Comment
    case Literal => if s[0] == '\'' then Code else Literal
    case Code =>
      if s[0] == '-' && |s| > 1 && s[1] == '-' then Comment
      else if s[0] == '\'' then Literal
      else Code
  }

  /** The mode of the i-th character of s. */
  function ModeAt(s: string, m: Mode, i: nat): Mode
    requires i <= |s|
  {
    if i == 0 then m else ModeAt(s[1..], Next(m, s), i - 1)
  }

  /** A statement that holds no separator of its own. */
  predicate Whole(s: string, m: Mode) {
    forall i :: 0 <= i < |s| && s[i] == ';' ==> ModeAt(s, m, i) != Code
  }

  /** A statement that ends in code, so that a semicolon put after it separates. */
  predicate Closed(s: string, m: Mode) {
    ModeAt(s, m, |s|) == Code
  }

  function Join(pieces: seq<string>): string {
    if pieces == [] then []
    else if |pieces| == 1 then pieces[0]
    else pieces[0] + (";" + Join(pieces[1..]))
  }

  function Prepend(c: string, pieces: seq<string>): seq<string>
    requires pieces != []
  {
    [c + pieces[0]] + pieces[1..]
  }

  /** The pieces between separators, untrimmed. */
  function Pieces(s: string, m: Mode): (r: seq<string>)
    ensures r != []
  {
    if s == [] then [""]
    else if m == Code && s[0] == ';' then [""] + Pieces(s[1..], Code)
    else Prepend([s[0]], Pieces(s[1..], Next(m, s)))
  }

  /** [s.strip() for s in pieces if s.strip()] */
  function Kept(pieces: seq<string>): seq<string> {
    if pieces == [] then []
    else (if Strip(pieces[0]) != [] then [Strip(pieces[0])] else []) + Kept(pieces[1..])
  }

  function Split(script: string): seq<string> {
    Kept(Pieces(script, Code))
  }

  // ----- the loop -----

  lemma PrependMore(c: string, d: string, pieces: seq<string>)
    requires pieces != []
    ensures Prepend(c, Prepend(d, pieces)) == Prepend(c + d, pieces)
  {
    var inner := Prepend(d, pieces);
    assert inner[0] == d + pieces[0] && inner[1..] == pieces[1..];
    assert c + (d + pieces[0]) == (c + d) + pieces[0];
  }

  lemma PrependNothing(pieces: seq<string>)
    requires pieces != []
    ensures Prepend([], pieces) == pieces
  {
    assert [] + pieces[0] == pieces[0];
  }

  lemma Rest(s: string, i: nat)
    requires i < |s|
    ensures s[i..] != [] && s[i..][0] == s[i] && s[i..][1..] == s[i + 1..]
    ensures i + 1 < |s| ==> |s[i..]| > 1 && s[i..][1] == s[i + 1]
    ensures i + 1 == |s| ==> |s[i..]| == 1
  {
  }

  /** Two quotes inside a literal: out and in again, with no separator between. */
  lemma {:induction false} EscapedQuote(s: string, statements: seq<string>, current: string)
    requires |s| > 1 && s[0] == '\'' && s[1] == '\''
    ensures statements + Prepend(current, Pieces(s, Literal))
            == statements + Prepend(current + [s[0]] + [s[1]], Pieces(s[2..], Literal))
  {
    assert s[1..][0] == s[1] && s[1..][1..] == s[2..];
    assert Next(Literal, s) == Code && Next(Code, s[1..]) == Literal;
    var tail := Pieces(s[2..], Literal);
    assert Pieces(s[1..], Code) == Prepend([s[1]], tail);
    assert Pieces(s, Literal) == Prepend([s[0]], Prepend([s[1]], tail));
    PrependMore([s[0]], [s[1]], tail);
    PrependMore(current, [s[0]] + [s[1]], tail);
    assert current + ([s[0]] + [s[1]]) == current + [s[0]] + [s[1]];
  }

  /** `_split_statements`. */
  method SplitStatements(script: string) returns (r: seq<string>)
    ensures r == Split(script)
  {
    var statements: seq<string>, current: string := [], [];
    var inComment, inString, i := false, false, 0;
    assert script[0..] == script;
    PrependNothing(Pieces(script, Code));
    while i < |script|
      invariant 0 <= i <= |script| && !(inComment && inString)
      invariant Pieces(script, Code)
                == statements + Prepend(current, Pieces(script[i..], ModeOf(inComment, inString)))
    {
      var ch := script[i];
      Rest(script, i);
      PrependMore(current, [ch], Pieces(script[i + 1..], Next(ModeOf(inComment, inString), script[i..])));
      if inComment {
        if ch == '\n' {
          inComment := false;
        }
        current := current + [ch];
      } else if inString {
        if ch == '\'' && i + 1 < |script| && script[i + 1] == '\'' {
          EscapedQuote(script[i..], statements, current);
          assert script[i..][2..] == script[i + 2..];
          current := current + [ch] + [script[i + 1]];
          i := i + 2;
          continue;
        }
        if ch == '\'' {
          inString := false;
        }
        current := current + [ch];
      } else if ch == '-' && i + 1 < |script| && script[i + 1] == '-' {
        inComment := true;
        current := current + [ch];
      } else if ch == '\'' {
        inString := true;
        current := current + [ch];
      } else if ch == ';' {
        SeparatorStep(statements, current, Pieces(script[i + 1..], Code));
        statements := statements + [current];
        current := [];
      } else {
        current := current + [ch];
      }
      i := i + 1;
    }
    assert script[i..] == [];
    assert current + "" == current && Prepend(current, [""]) == [current];
    return Kept(statements + [current]);
  }

  function ModeOf(inComment: bool, inString: bool): Mode {
    if inComment then Comment else if inString then Literal else Code
  }

  lemma SeparatorStep(statements: seq<string>, current: string, rest: seq<string>)
    requires rest != []
    ensures statements + Prepend(current, [""] + rest) == (statements + [current]) + Prepend([], rest)
  {
    assert ([""] + rest)[1..] == rest;
    assert current + "" == current && [] + rest[0] == rest[0];
    assert Prepend([], rest) == rest;
  }

  // ----- where comments and literals are -----

  lemma {:induction false} ModeStep(s: string, m: Mode, i: nat)
    requires i < |s|
    ensures ModeAt(s, m, i + 1) == Next(ModeAt(s, m, i), s[i..])
  {
    if i == 0 {
      assert s[0..] == s;
    } else {
      ModeStep(s[1..], Next(m, s), i - 1);
      assert s[1..][i - 1..] == s[i..];
    }
  }

  predicate Without(s: string, from: nat, to: nat, c: char)
    requires to <= |s|
  {
    forall q :: from <= q < to ==> s[q] != c
  }

  /** A comment runs as far as there is no newline, a literal as far as there is no quote. */
  lemma {:induction false} ModeRuns(s: string, i: nat, j: nat, m: Mode, end: char)
    requires i <= j <= |s| && ModeAt(s, Code, i) == m && Without(s, i, j, end)
    requires (m == Comment && end == '\n') || (m == Literal && end == '\'')
    ensures ModeAt(s, Code, j) == m
  {
    if i < j {
      ModeRuns(s, i, j - 1, m, end);
      ModeStep(s, Code, j - 1);
    }
  }

  /**
   Where comments and literals are. A script starts in code. From code, two hyphens open a comment, which runs to the
   next newline and that included; a quote opens a literal, which runs to the next quote and that included; and after
   any other character it is still code.
   */
  lemma {:induction false} ModesExactly(s: string, i: nat, k: nat)
    requires i < k <= |s| && ModeAt(s, Code, i) == Code
    ensures ModeAt(s, Code, 0) == Code
    ensures s[i] == '-' && i + 1 < |s| && s[i + 1] == '-' && Without(s, i, k, '\n') ==> ModeAt(s, Code, k) == Comment
    ensures s[i] == '-' && i + 1 < |s| && s[i + 1] == '-' && Without(s, i, k - 1, '\n') && s[k - 1] == '\n' ==>
              ModeAt(s, Code, k) == Code
    ensures s[i] == '\'' && Without(s, i + 1, k, '\'') ==> ModeAt(s, Code, k) == Literal
    ensures s[i] == '\'' && i + 1 < k && Without(s, i + 1, k - 1, '\'') && s[k - 1] == '\'' ==>
              ModeAt(s, Code, k) == Code
    ensures s[i] != '\'' && !(s[i] == '-' && i + 1 < |s| && s[i + 1] == '-') ==> ModeAt(s, Code, i + 1) == Code
  {
    ModeStep(s, Code, i);
    ModeStep(s, Code, k - 1);
    var opens := s[i] == '-' && i + 1 < |s| && s[i + 1] == '-';
    if opens && Without(s, i, k - 1, '\n') && i + 1 < k {
      ModeRuns(s, i + 1, k - 1, Comment, '\n');
    }
    if s[i] == '\'' && Without(s, i + 1, k - 1, '\'') && i + 1 < k {
      ModeRuns(s, i + 1, k - 1, Literal, '\'');
    }
  }

  // ----- what the cuts are -----

  lemma {:induction false} PiecesRejoin(s: string, m: Mode)
    ensures Join(Pieces(s, m)) == s
  {
    if s != [] {
      assert s == [s[0]] + s[1..];
      if m == Code && s[0] == ';' {
        var rest := Pieces(s[1..], Code);
        PiecesRejoin(s[1..], Code);
        assert ([""] + rest)[1..] == rest;
        assert "" + (";" + s[1..]) == s;
      } else {
        var rest := Pieces(s[1..], Next(m, s));
        PiecesRejoin(s[1..], Next(m, s));
        JoinPrepend(s[0], rest);
      }
    }
  }

  lemma {:induction false} JoinPrepend(c: char, pieces: seq<string>)
    requires pieces != []
    ensures Join(Prepend([c], pieces)) == [c] + Join(pieces)
  {
    var more := Prepend([c], pieces);
    assert more[1..] == pieces[1..];
    if |pieces| > 1 {
      var tail := ";" + Join(pieces[1..]);
      assert ([c] + pieces[0]) + tail == [c] + (pieces[0] + tail);
    }
  }

  lemma WholeTail(s: string, m: Mode)
    requires s != []
    ensures Whole(s, m) <==> !(m == Code && s[0] == ';') && Whole(s[1..], Next(m, s))
    ensures Closed(s, m) == Closed(s[1..], Next(m, s))
  {
    if Whole(s, m) {
      assert s[0] == ';' ==> ModeAt(s, m, 0) != Code;
      forall i | 0 <= i < |s[1..]| && s[1..][i] == ';'
        ensures ModeAt(s[1..], Next(m, s), i) != Code
      {
        assert s[i + 1] == ';' && ModeAt(s, m, i + 1) == ModeAt(s[1..], Next(m, s), i);
      }
    }
    if !(m == Code && s[0] == ';') && Whole(s[1..], Next(m, s)) {
      forall i | 0 <= i < |s| && s[i] == ';'
        ensures ModeAt(s, m, i) != Code
      {
        if i > 0 {
          assert s[1..][i - 1] == ';';
        }
      }
    }
  }

  /** What follows a first piece: nothing, or a semicolon; neither changes how the piece reads. */
  lemma NextIsLocal(m: Mode, s: string, tail: string)
    requires s != [] && (tail == [] || tail[0] == ';')
    ensures Next(m, s + tail) == Next(m, s)
  {
    if |s| == 1 && tail != [] {
      assert (s + tail)[1] == ';';
    }
  }

  /** A whole, closed piece and a semicolon in front of anything: the piece is cut off exactly there. */
  lemma {:induction false} FirstPiece(p: string, m: Mode, rest: string)
    requires Whole(p, m) && Closed(p, m)
    ensures Pieces(p + (";" + rest), m) == [p] + Pieces(rest, Code)
  {
    var s := p + (";" + rest);
    if p == [] {
      assert s == ";" + rest && s[1..] == rest;
    } else {
      WholeTail(p, m);
      NextIsLocal(m, p, ";" + rest);
      FirstPiece(p[1..], Next(m, p), rest);
      assert s[0] == p[0] && s[1..] == p[1..] + (";" + rest);
      var tail := [p[1..]] + Pieces(rest, Code);
      assert tail[0] == p[1..] && tail[1..] == Pieces(rest, Code);
      assert [p[0]] + p[1..] == p;
    }
  }

  lemma {:induction false} LastPiece(p: string, m: Mode)
    requires Whole(p, m)
    ensures Pieces(p, m) == [p]
  {
    if p != [] {
      WholeTail(p, m);
      LastPiece(p[1..], Next(m, p));
      assert [p[0]] + p[1..] == p;
    }
  }

  /** Pieces that each hold no separator, all but the last ending in code. */
  predicate Separable(pieces: seq<string>) {
    && (forall k :: 0 <= k < |pieces| ==> Whole(pieces[k], Code))
    && (forall k :: 0 <= k < |pieces| - 1 ==> Closed(pieces[k], Code))
  }

  /** Cutting undoes joining, whatever the white space. */
  lemma {:induction false} PiecesOfJoin(pieces: seq<string>)
    requires pieces != [] && Separable(pieces)
    ensures Pieces(Join(pieces), Code) == pieces
  {
    if |pieces| == 1 {
      LastPiece(pieces[0], Code);
    } else {
      PiecesOfJoin(pieces[1..]);
      FirstPiece(pieces[0], Code, Join(pieces[1..]));
      assert [pieces[0]] + pieces[1..] == pieces;
    }
  }

  /**
   Every piece is whole, and every piece but the last ends in code: each cut is at a separator, and none is missed.
   */
  lemma {:induction false} PiecesAreSeparable(s: string, m: Mode)
    ensures var ps := Pieces(s, m);
            && Whole(ps[0], m) && (|ps| > 1 ==> Closed(ps[0], m))
            && Separable(ps[1..])
  {
    if s != [] {
      if m == Code && s[0] == ';' {
        var rest := Pieces(s[1..], Code);
        PiecesAreSeparable(s[1..], Code);
        assert ([""] + rest)[1..] == rest;
        SeparableCons(rest);
      } else {
        var rest := Pieces(s[1..], Next(m, s));
        var p := [s[0]] + rest[0];
        PiecesAreSeparable(s[1..], Next(m, s));
        assert Pieces(s, m)[1..] == rest[1..];
        assert p[1..] == rest[0];
        StartOfPiece(s, m);
        WholeTail(p, m);
      }
    }
  }

  lemma SeparableCons(pieces: seq<string>)
    requires pieces != [] && Whole(pieces[0], Code) && (|pieces| > 1 ==> Closed(pieces[0], Code))
    requires Separable(pieces[1..])
    ensures Separable(pieces)
  {
    forall k | 0 <= k < |pieces|
      ensures Whole(pieces[k], Code)
    {
      if k > 0 {
        assert pieces[k] == pieces[1..][k - 1];
      }
    }
    forall k | 0 <= k < |pieces| - 1
      ensures Closed(pieces[k], Code)
    {
      if k > 0 {
        assert pieces[k] == pieces[1..][k - 1];
      }
    }
  }

  /** The first piece starts as the script does, as far as the mode after one character can tell. */
  lemma StartOfPiece(s: string, m: Mode)
    requires s != [] && !(m == Code && s[0] == ';')
    ensures var p := [s[0]] + Pieces(s[1..], Next(m, s))[0]; Next(m, p) == Next(m, s)
  {
    var m' := Next(m, s);
    var rest := Pieces(s[1..], m');
    var p := [s[0]] + rest[0];
    if |s| > 1 {
      if m' == Code && s[1] == ';' {
        assert rest[0] == "";
      } else {
        assert s[1..][0] == s[1];
        assert rest[0][0] == s[1];
        assert p[1] == s[1];
      }
    }
  }

  /** The pieces are the only way to write a script as whole pieces, all but the last closed, joined by semicolons. */
  lemma {:induction false} PiecesExactly(script: string, pieces: seq<string>)
    requires pieces != []
    ensures pieces == Pieces(script, Code) <==> Join(pieces) == script && Separable(pieces)
  {
    PiecesRejoin(script, Code);
    PiecesAreSeparable(script, Code);
    SeparableCons(Pieces(script, Code));
    if Join(pieces) == script && Separable(pieces) {
      PiecesOfJoin(pieces);
    }
  }

  // ----- what is kept of the pieces -----

  predicate Blank(p: string) {
    forall i :: 0 <= i < |p| ==> IsSpace(p[i])
  }

  /** These are the places between which p is left when the spaces at its ends are off. */
  predicate Edges(p: string, from: nat, to: nat) {
    && from < to <= |p| && !IsSpace(p[from]) && !IsSpace(p[to - 1])
    && (forall i :: 0 <= i < from ==> IsSpace(p[i])) && forall i :: to <= i < |p| ==> IsSpace(p[i])
  }

  /** r is p without the spaces at its ends. */
  ghost predicate Bare(p: string, r: string) {
    exists from: nat, to: nat :: Edges(p, from, to) && r == p[from..to]
  }

  lemma {:induction false} EdgesAreOne(p: string, a: nat, b: nat, from: nat, to: nat)
    requires Edges(p, a, b) && Edges(p, from, to)
    ensures a == from && b == to
  {
    assert !(a < from) && !(from < a);
    assert !(b - 1 > to - 1) && !(to - 1 > b - 1);
  }

  lemma {:induction false} BareExactly(p: string, r: string)
    ensures Blank(p) ==> Strip(p) == ""
    ensures !Blank(p) ==> Strip(p) != "" && (Bare(p, r) <==> r == Strip(p))
  {
    var from, to := StripExactly(p);
    if from < to {
      assert Edges(p, from, to);
      assert !IsSpace(p[from]);
      if a: nat, b: nat :| Edges(p, a, b) && r == p[a..b] {
        EdgesAreOne(p, a, b, from, to);
      }
    }
  }

  /** The statements are the pieces that are not blank, bare and in the order of the script. */
  ghost predicate KeptFrom(pieces: seq<string>, r: seq<string>) {
    if pieces == [] then r == []
    else if Blank(pieces[0]) then KeptFrom(pieces[1..], r)
    else r != [] && Bare(pieces[0], r[0]) && KeptFrom(pieces[1..], r[1..])
  }

  /** What splitting keeps: every piece that is not blank, without the spaces around it, and nothing else. */
  lemma {:induction false} KeptExactly(pieces: seq<string>, r: seq<string>)
    ensures KeptFrom(pieces, r) <==> r == Kept(pieces)
  {
    if pieces != [] {
      var p, rest := pieces[0], Kept(pieces[1..]);
      BareExactly(p, if r == [] then "" else r[0]);
      if Blank(p) {
        KeptExactly(pieces[1..], r);
        assert [] + rest == rest;
      } else if r != [] {
        KeptExactly(pieces[1..], r[1..]);
        assert r == [r[0]] + r[1..] && ([Strip(p)] + rest)[1..] == rest;
      }
    }
  }

  // ----- the round trip -----

  lemma {:induction false} KeptTrimmed(pieces: seq<string>)
    requires forall k :: 0 <= k < |pieces| ==> Trimmed(pieces[k])
    ensures Kept(pieces) == pieces
  {
    if pieces != [] {
      StripTrimmed(pieces[0]);
      KeptTrimmed(pieces[1..]);
    }
  }

  lemma {:induction false} LStripShrinks(s: string)
    ensures |LStrip(s)| <= |s| && (|LStrip(s)| == |s| ==> LStrip(s) == s)
  {
    if s != [] && IsSpace(s[0]) {
      LStripShrinks(s[1..]);
    }
  }

  lemma {:induction false} RStripShrinks(s: string)
    ensures |RStrip(s)| <= |s| && (|RStrip(s)| == |s| ==> RStrip(s) == s)
  {
    if s != [] && IsSpace(s[|s| - 1]) {
      RStripShrinks(s[..|s| - 1]);
    }
  }

  /** The length of the joined pieces, plus one. */
  function Extent(pieces: seq<string>): nat {
    if pieces == [] then 0 else |pieces[0]| + 1 + Extent(pieces[1..])
  }

  lemma {:induction false} JoinExtent(pieces: seq<string>)
    requires pieces != []
    ensures |Join(pieces)| + 1 == Extent(pieces)
  {
    if |pieces| > 1 {
      JoinExtent(pieces[1..]);
    } else {
      assert pieces[1..] == [];
    }
  }

  lemma {:induction false} KeptShrinks(pieces: seq<string>)
    ensures Extent(Kept(pieces)) <= Extent(pieces)
    ensures Extent(Kept(pieces)) == Extent(pieces) ==> Kept(pieces) == pieces
  {
    if pieces != [] {
      KeptShrinks(pieces[1..]);
      LStripShrinks(pieces[0]);
      RStripShrinks(LStrip(pieces[0]));
      var rest := Kept(pieces[1..]);
      if Strip(pieces[0]) != [] {
        assert ([Strip(pieces[0])] + rest)[1..] == rest;
      } else {
        assert [] + rest == rest;
      }
    }
  }

  /**
   The round trip is exact: trimmed statements joined by semicolons come back as they were if and only if none
   holds a semicolon outside comments and literals and each but the last ends outside them.
   */
  lemma {:induction false} RoundTripExactly(statements: seq<string>)
    requires forall k :: 0 <= k < |statements| ==> Trimmed(statements[k])
    ensures Split(Join(statements)) == statements <==> Separable(statements)
  {
    if statements == [] {
      assert Pieces([], Code) == [""] && Strip("") == "";
      assert [""][1..] == [];
      assert Kept([""]) == [];
    } else if Separable(statements) {
      PiecesOfJoin(statements);
      KeptTrimmed(statements);
    } else if Split(Join(statements)) == statements {
      var pieces := Pieces(Join(statements), Code);
      PiecesRejoin(Join(statements), Code);
      JoinExtent(pieces);
      JoinExtent(statements);
      KeptShrinks(pieces);
      PiecesAreSeparable(Join(statements), Code);
      SeparableCons(pieces);
      assert false;
    }
  }

  /**
   A statement that ends inside a comment or a literal swallows the semicolon and what the next statement leaves
   inside it: the text goes on in that mode.
   */
  lemma {:induction false} OpenEndSwallows(p: string, m: Mode, rest: string)
    requires Whole(p, m) && !Closed(p, m)
    ensures Pieces(p + (";" + rest), m) == Prepend(p + ";", Pieces(rest, ModeAt(p, m, |p|)))
  {
    var s := p + (";" + rest);
    if p == [] {
      assert s == ";" + rest && s[1..] == rest;
      assert Next(m, s) == m && p + ";" == ";" == [s[0]];
    } else {
      WholeTail(p, m);
      NextIsLocal(m, p, ";" + rest);
      OpenEndSwallows(p[1..], Next(m, p), rest);
      assert s[0] == p[0] && s[1..] == p[1..] + (";" + rest);
      PrependMore([p[0]], p[1..] + ";", Pieces(rest, ModeAt(p, m, |p|)));
      assert [p[0]] + (p[1..] + ";") == p + ";";
    }
  }

  lemma {:induction false} OneLineOfComment(s: string)
    requires '\n' !in s
    ensures Pieces(s, Comment) == [s]
  {
    if s != [] {
      assert s == [s[0]] + s[1..];
      OneLineOfComment(s[1..]);
    }
  }

  lemma {:induction false} OnePiece(p: string, next: string)
    requires Whole(p, Code) && ModeAt(p, Code, |p|) == Comment && '\n' !in next
    ensures Pieces(p + (";" + next), Code) == [p + (";" + next)]
  {
    OpenEndSwallows(p, Code, next);
    OneLineOfComment(next);
    assert (p + ";") + next == p + (";" + next);
  }

  lemma KeptWhole(s: string)
    requires Trimmed(s)
    ensures Kept([s]) == [s]
  {
    StripTrimmed(s);
    assert [s][1..] == [];
  }

  /** A statement that ends in a comment swallows the next one whole, when that is written on one line. */
  lemma {:induction false} OpenCommentSwallows(p: string, next: string)
    requires Trimmed(p) && Trimmed(next) && Whole(p, Code) && ModeAt(p, Code, |p|) == Comment && '\n' !in next
    ensures Split(Join([p, next])) == [p + (";" + next)]
  {
    var s := p + (";" + next);
    OnePiece(p, next);
    assert Join([p, next]) == s by {
      assert [p, next][1..] == [next];
    }
    assert s[0] == p[0] && s[|s| - 1] == next[|next| - 1];
    KeptWhole(s);
  }
}
