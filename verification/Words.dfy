/** White space, words and lines, as the string methods `split`, `strip`, `rstrip` and `join` of Python see them. */
module Words {

  predicate IsSpace(c: char) {
    || '\t' <= c <= '\r' || '\U{1C}' <= c <= ' ' || c == '\U{85}' || c == '\U{A0}' || c == '\U{1680}'
    || '\U{2000}' <= c <= '\U{200A}' || c == '\U{2028}' || c == '\U{2029}' || c == '\U{202F}' || c == '\U{205F}' || c == '\U{3000}'
  }

  /** The white space of Python, by code point. */
  lemma SpacesIff(c: char)
    ensures IsSpace(c) <==>
            c as int in {9, 10, 11, 12, 13, 28, 29, 30, 31, 32, 133, 160, 5760, 8232, 8233, 8239, 8287, 12288}
            || 8192 <= c as int <= 8202
  {
  }

  predicate NoSpace(s: string) {
    forall i | 0 <= i < |s| :: !IsSpace(s[i])
  }

  predicate IsWord(s: string) {
    s != "" && NoSpace(s)
  }

  predicate AllWords(words: seq<string>) {
    forall i | 0 <= i < |words| :: IsWord(words[i])
  }

  /** How many characters from the start are not white space. */
  function RunLength(s: string): (n: nat)
    ensures n <= |s| && NoSpace(s[..n])
    ensures n < |s| ==> IsSpace(s[n])
  {
    if s == "" || IsSpace(s[0]) then 0
    else
      var n := RunLength(s[1..]);
      assert s[..1 + n] == [s[0]] + s[1..][..n];
      1 + n
  }

  lemma RunOfWord(word: string, rest: string)
    requires NoSpace(word) && (rest == "" || IsSpace(rest[0]))
    ensures RunLength(word + rest) == |word|
  {
    var s := word + rest;
    assert forall i | 0 <= i < |word| :: !IsSpace(s[i]);
    assert forall i | 0 <= i < RunLength(s) :: s[..RunLength(s)][i] == s[i];
    assert rest != "" ==> s[|word|] == rest[0];
  }

  /** `s.split()` */
  function SplitWords(s: string): (words: seq<string>)
    ensures AllWords(words)
    decreases |s|
  {
    if s == "" then []
    else if IsSpace(s[0]) then SplitWords(s[1..])
    else
      var n := RunLength(s);
      [s[..n]] + SplitWords(s[n..])
  }

  lemma SplitOfWord(word: string)
    requires IsWord(word)
    ensures SplitWords(word) == [word]
  {
    SplitBehindWord(word, "");
    assert word + "" == word;
  }

  lemma SplitBehindSpace(space: char, rest: string)
    requires IsSpace(space)
    ensures SplitWords([space] + rest) == SplitWords(rest)
  {
    assert ([space] + rest)[1..] == rest;
  }

  lemma SplitBehindWord(word: string, rest: string)
    requires IsWord(word) && (rest == "" || IsSpace(rest[0]))
    ensures SplitWords(word + rest) == [word] + SplitWords(rest)
  {
    RunOfWord(word, rest);
    assert (word + rest)[..|word|] == word && (word + rest)[|word|..] == rest;
  }

  lemma NothingToSplit()
    ensures SplitWords("") == []
  {
  }

  /** White space separates: with `SplitOfWord` this says of every text what its words are. */
  lemma {:induction false} SplitAtSpace(a: string, space: char, b: string)
    requires IsSpace(space)
    ensures SplitWords(a + [space] + b) == SplitWords(a) + SplitWords(b)
    decreases |a|
  {
    hide IsSpace, SplitWords, RunLength;
    if a == "" {
      NothingToSplit();
      assert a + [space] + b == [space] + b;
      SplitBehindSpace(space, b);
    } else if IsSpace(a[0]) {
      var rest := a[1..];
      SplitAtSpace(rest, space, b);
      assert a == [a[0]] + rest && a + [space] + b == [a[0]] + (rest + [space] + b);
      SplitBehindSpace(a[0], rest);
      SplitBehindSpace(a[0], rest + [space] + b);
    } else {
      WordInFront(a);
      var word, rest := a[..RunLength(a)], a[RunLength(a)..];
      SplitAtSpace(rest, space, b);
      assert a == word + rest && a + [space] + b == word + (rest + [space] + b);
      SplitBehindWord(word, rest);
      SplitBehindWord(word, rest + [space] + b);
    }
  }

  lemma WordInFront(s: string)
    requires s != "" && !IsSpace(s[0])
    ensures IsWord(s[..RunLength(s)]) && RunLength(s) > 0
  {
  }

  /** `" ".join(words)` */
  function Join(words: seq<string>): (s: string)
    ensures words != [] && AllWords(words) ==> s != "" && !IsSpace(s[0]) && !IsSpace(s[|s| - 1])
  {
    if words == [] then ""
    else if |words| == 1 then words[0]
    else
      var n := |words| - 1;
      Join(words[..n]) + " " + words[n]
  }

  lemma {:induction false} JoinFromTheFront(word: string, rest: seq<string>)
    requires rest != []
    ensures Join([word] + rest) == word + " " + Join(rest)
  {
    var n := |rest| - 1;
    assert ([word] + rest)[..n + 1] == [word] + rest[..n];
    if n > 0 {
      JoinFromTheFront(word, rest[..n]);
    }
  }

  /** Joining lines that were joined themselves is joining all the words. */
  lemma {:induction false} JoinOfJoins(words: seq<string>, cut: nat)
    requires 0 < cut < |words|
    ensures Join(words) == Join(words[..cut]) + " " + Join(words[cut..])
    decreases |words|
  {
    hide Join, AllWords;
    var n := |words| - 1;
    JoinOfMore(words);
    if cut < n {
      JoinOfJoins(words[..n], cut);
      assert words[..n][..cut] == words[..cut];
      JoinOfMore(words[cut..]);
      assert words[cut..][..n - cut] == words[..n][cut..];
    } else {
      assert words[cut..] == [words[n]];
      JoinOfOne(words[n]);
    }
  }

  lemma JoinOfMore(words: seq<string>)
    ensures |words| > 1 ==> Join(words) == Join(words[..|words| - 1]) + " " + words[|words| - 1]
  {
  }

  lemma JoinOfOne(word: string)
    ensures Join([word]) == word
  {
  }

  /** Splitting a joined line gives back its words. */
  lemma {:induction false} SplitOfJoin(words: seq<string>)
    requires AllWords(words)
    ensures SplitWords(Join(words)) == words
    decreases |words|
  {
    if |words| == 1 {
      RunOfWord(words[0], "");
      assert words[0] + "" == words[0];
      assert words[0][..|words[0]|] == words[0];
      assert words[0][|words[0]|..] == "";
    } else if |words| > 1 {
      var rest := words[1..];
      assert words == [words[0]] + rest;
      JoinFromTheFront(words[0], rest);
      var tail := " " + Join(rest);
      assert Join(words) == words[0] + tail;
      RunOfWord(words[0], tail);
      assert Join(words)[|words[0]|..] == tail;
      assert tail[1..] == Join(rest);
      SplitOfJoin(rest);
    }
  }

  /** `s.rstrip()` */
  function RStrip(s: string): (r: string)
    ensures r <= s
    ensures r == "" || !IsSpace(r[|r| - 1])
    ensures forall i | |r| <= i < |s| :: IsSpace(s[i])
  {
    if s == "" || !IsSpace(s[|s| - 1]) then s else RStrip(s[..|s| - 1])
  }

  function LStrip(s: string): string {
    if s == "" || !IsSpace(s[0]) then s else LStrip(s[1..])
  }

  lemma {:induction false} LStripLeaves(s: string) returns (i: nat)
    ensures i <= |s| && LStrip(s) == s[i..] && (i < |s| ==> !IsSpace(s[i]))
    ensures forall k | 0 <= k < i :: IsSpace(s[k])
  {
    if s == "" || !IsSpace(s[0]) {
      i := 0;
    } else {
      var j := LStripLeaves(s[1..]);
      i := j + 1;
    }
  }

  /** `s.strip()` */
  function Strip(s: string): string {
    RStrip(LStrip(s))
  }

  /** What is left lies from i to j: it starts and ends with no white space, and everything around it is. */
  lemma StripLeaves(s: string) returns (i: nat, j: nat)
    ensures i <= j <= |s| && Strip(s) == s[i..j]
    ensures i < j ==> !IsSpace(s[i]) && !IsSpace(s[j - 1])
    ensures forall k | 0 <= k < |s| && !(i <= k < j) :: IsSpace(s[k])
  {
    i := LStripLeaves(s);
    var r := RStrip(s[i..]);
    j := i + |r|;
    forall k | j <= k < |s| ensures IsSpace(s[k]) {
      assert s[i..][k - i] == s[k];
    }
  }
}
