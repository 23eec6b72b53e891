/** What the reader takes from any text: its lines, its rows, the tokens of a row and the extensions written short. */
module TreeShorthands {
  import opened Text
  import opened TreeReader
  import opened Words

  // ----- lines and rows

  /** The characters that end a line, by code point. */
  lemma BreakIff(c: char)
    ensures IsBreak(c) <==> c as int in {10, 11, 12, 13, 28, 29, 30, 133, 8232, 8233}
  {
  }

  /** Every break ends a line, and a carriage return with the line feed behind it is one break. */
  lemma LinesOfText(line: string, c: char, rest: string)
    requires OneLine(line) && IsBreak(c)
    ensures c != '\r' || rest == "" || rest[0] != '\n' ==> SplitLines(line + [c] + rest) == [line] + SplitLines(rest)
    ensures c == '\r' && rest != "" && rest[0] == '\n' ==> SplitLines(line + [c] + rest) == [line] + SplitLines(rest[1..])
  {
    var s := line + [c] + rest;
    LengthOfLine(line, c, rest);
    assert s[..|line|] == line && s[|line|] == c;
    assert s[|line| + 1..] == rest;
    assert rest != "" ==> s[|line| + 1] == rest[0] && s[|line| + 2..] == rest[1..];
  }

  lemma LengthOfLine(line: string, c: char, rest: string)
    requires OneLine(line) && IsBreak(c)
    ensures LineLength(line + [c] + rest) == |line|
  {
    hide IsBreak;
    var s := line + [c] + rest;
    var n := LineLength(s);
    assert s[|line|] == c;
    assert forall i | 0 <= i < |line| :: s[i] == line[i];
    assert forall i | 0 <= i < n :: s[..n][i] == s[i];
  }

  lemma LastLine(line: string)
    requires OneLine(line)
    ensures SplitLines(line) == if line == "" then [] else [line]
  {
    assert line == line[..|line|];
  }

  /** A row starts with one of the two branches. */
  lemma RowIff(line: string)
    ensures IsRow(line) <==> "├── " <= line || "└── " <= line
    ensures RowNames(line) == if "├── " <= line || "└── " <= line then NamesIn(line[4..]) else {}
  {
    if |line| >= 4 {
      assert line[..4] == [line[0]] + line[1..4];
      assert "├── " == ['├'] + "── " && "└── " == ['└'] + "── ";
    }
  }

  // ----- tokens

  /** A token ends at white space or a comma. */
  predicate IsToken(token: string) {
    token != "" && NoSpace(token) && ',' !in token
  }

  lemma TokenReaches(token: string, rest: string)
    requires IsToken(token) && (rest == "" || IsSpace(rest[0]) || rest[0] == ',')
    ensures TokenLength(token + rest) == |token|
  {
    hide IsSpace;
    var s := token + rest;
    assert forall i | 0 <= i < |token| :: s[i] == token[i];
    assert rest != "" ==> s[|token|] == rest[0];
  }

  /** Behind one of the three separators the next token is taken, behind anything else nothing more is. */
  lemma TokensOfRow(token: string, rest: string)
    requires IsToken(token) && (rest == "" || IsSpace(rest[0]) || rest[0] == ',')
    ensures ", " <= rest ==> Tokens(token + rest) == [token] + Tokens(rest[2..])
    ensures " / " <= rest || " + " <= rest ==> Tokens(token + rest) == [token] + Tokens(rest[3..])
    ensures !(", " <= rest || " / " <= rest || " + " <= rest) ==> Tokens(token + rest) == [token]
  {
    var s := token + rest;
    TokenReaches(token, rest);
    assert s[..|token|] == token && s[|token|..] == rest;
    if ", " <= rest {
      assert rest[0] == ", "[0];
    }
  }

  lemma NoTokens(s: string)
    requires s == "" || IsSpace(s[0]) || s[0] == ','
    ensures Tokens(s) == []
  {
  }

  // ----- extensions

  lemma {:induction false} StemOf(stem: string, extension: string)
    requires '.' !in extension
    ensures BeforeLastDot(stem + "." + extension) == stem
    decreases |extension|
  {
    var s := stem + "." + extension;
    assert s[|stem|] == '.';
    if extension == "" {
      assert s[..|s| - 1] == stem;
    } else {
      var n := |extension| - 1;
      assert s[|s| - 1] == extension[n];
      assert s[..|s| - 1] == stem + "." + extension[..n];
      StemOf(stem, extension[..n]);
    }
  }

  lemma SplitAtDot(front: string, extension: string)
    requires '/' !in front && '/' !in extension
    ensures DotParts(front + "/." + extension) == [front, "." + extension]
  {
    var s := front + "/." + extension;
    assert s[|front|] == '/' && s[|front| + 1] == '.';
    assert forall i | 0 <= i < |front| :: s[i] == front[i];
    assert forall i | |front| + 2 <= i < |s| :: s[i] == extension[i - |front| - 2];
    assert s[..|front|] == front && s[|front| + 1..] == "." + extension;
    assert DotSlash("." + extension) == |"." + extension|;
  }

  lemma BareName(name: string)
    requires '/' !in name && name != ""
    ensures StripSlashes(name) == name && Segment(name) == name
  {
    assert forall i | 0 <= i < |name| :: name[i] in name;
  }

  /** `a.sh/.bat`: the first name as it is, and the second one with the stem of the first. */
  lemma ShorthandListsBoth(stem: string, first: string, second: string)
    requires IsToken(stem) && stem[0] != '.' && '/' !in stem + first + second
    requires '.' !in first && '.' !in second && NoSpace(first + second) && ',' !in first + second
    ensures NamesIn(stem + "." + first + "/." + second) == {stem + "." + first, stem + "." + second}
  {
    hide IsSpace, TokenLength, BeforeLastDot, Segment, StripSlashes, DotParts;
    var name, other := stem + "." + first, "." + second;
    var token := name + "/." + second;
    NoSlashes(stem, first, second);
    TokenOfShorthand(stem, first, second);
    assert token + "" == token;
    TokensOfRow(token, "");
    SplitAtDot(name, second);
    assert Tokens(token) == [token] && [token][1..] == [];
    assert AllParts([token]) == DotParts(token) + AllParts([]) == [name, other];
    StemOf(stem, first);
    BareName(name);
    BareName(other);
    BareName(stem + other);
    assert name[0] == stem[0] && name[|stem|] == '.';
    assert !HasInnerDot("");
    assert Completed(name, "") == name;
    assert Completed(other, name) == stem + other;
    assert [name, other][1..] == [other] && [other][1..] == [];
    assert NamesOf([other], name) == {stem + other} + NamesOf([], stem + other);
    assert NamesOf([name, other], "") == {name} + NamesOf([other], name);
    assert stem + other == stem + "." + second;
  }

  /** Behind a name without an extension, as in `Makefile/.env` or `.git/.env`, the second one is a name of its own. */
  lemma NoExtensionToReplace(name: string, second: string)
    requires IsToken(name) && NoSpace(second) && ',' !in second && '/' !in name && '/' !in second
    requires forall i, j | 0 <= i < j < |name| && name[j] == '.' :: name[i] == '.'
    ensures NamesIn(name + "/." + second) == {name, "." + second}
  {
    hide IsSpace, TokenLength, BeforeLastDot, Segment, StripSlashes, DotParts;
    var other := "." + second;
    var token := name + "/." + second;
    forall i | 0 <= i < |token| ensures !IsSpace(token[i]) && token[i] != ',' {
      DotIsNoSpace();
      if i < |name| {
        assert token[i] == name[i] && token[i] in name;
      } else if i > |name| + 1 {
        assert token[i] == second[i - |name| - 2] && token[i] in second;
      }
    }
    assert token + "" == token;
    TokensOfRow(token, "");
    SplitAtDot(name, second);
    assert Tokens(token) == [token] && [token][1..] == [];
    assert AllParts([token]) == DotParts(token) + AllParts([]) == [name, other];
    BareName(name);
    BareName(other);
    assert !HasInnerDot("") && !HasInnerDot(name);
    assert Completed(name, "") == name && Completed(other, name) == other;
    assert [name, other][1..] == [other] && [other][1..] == [];
    assert NamesOf([other], name) == {other} + NamesOf([], other);
    assert NamesOf([name, other], "") == {name} + NamesOf([other], name);
  }

  lemma DotIsNoSpace()
    ensures !IsSpace('/') && !IsSpace('.')
  {
  }

  lemma NoSlashes(stem: string, first: string, second: string)
    requires '/' !in stem + first + second
    ensures '/' !in stem + "." + first && '/' !in "." + second && '/' !in stem + ("." + second) && '/' !in second
  {
    assert forall c | c in stem || c in first || c in second :: c in stem + first + second;
  }

  lemma TokenOfShorthand(stem: string, first: string, second: string)
    requires IsToken(stem) && NoSpace(first + second) && ',' !in first + second
    ensures IsToken(stem + "." + first + "/." + second)
  {
    var token, both := stem + "." + first + "/." + second, first + second;
    forall i | 0 <= i < |token| ensures !IsSpace(token[i]) && token[i] != ',' {
      if i < |stem| {
        assert token[i] == stem[i] && token[i] in stem;
      } else if |stem| < i <= |stem| + |first| {
        assert token[i] == both[i - |stem| - 1] && token[i] in both;
      } else if i > |stem| + |first| + 2 {
        assert token[i] == both[i - |stem| - 3] && token[i] in both;
      }
    }
  }
}
