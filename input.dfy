/** Reading a command line: the line is cut into words at runs of
    whitespace, the first word is the command, lower-cased, and the rest are
    its arguments. Only ASCII characters are given their Python meaning
    here: whitespace is space, tab, the line and page breaks and the four
    separator controls 0x1C-0x1F, and lower-casing maps 'A'-'Z' to 'a'-'z'. */
module Input {
  import opened Seqs

  /** `str.isspace()` on one ASCII character: only the space and some
      control characters are whitespace. */
  predicate IsSpace(c: char): (r: bool)
    ensures c == ' ' || c == '\t' || c == '\n' || c == '\r' ==> r
    ensures r ==> c as int <= 32
  {
    c == ' ' || 9 <= c as int <= 13 || 28 <= c as int <= 31
  }

  /** A word as `str.split()` returns it: non-empty and without whitespace. */
  predicate IsWord(w: string) {
    w != [] && forall i :: 0 <= i < |w| ==> !IsSpace(w[i])
  }

  /** `not s.strip()`: the line is nothing but whitespace, so it holds no word. */
  predicate IsBlank(s: string): (r: bool)
    ensures r <==> Split(s) == []
    decreases |s|
  {
    s == [] || (IsSpace(s[0]) && IsBlank(s[1..]))
  }

  /** The length of the run of non-whitespace characters that starts `s`. */
  function WordLength(s: string): (n: nat)
    ensures n <= |s|
    ensures forall i :: 0 <= i < n ==> !IsSpace(s[i])
    ensures n < |s| ==> IsSpace(s[n])
  {
    if s == [] || IsSpace(s[0]) then 0 else 1 + WordLength(s[1..])
  }

  /** `s.split()`: the maximal runs of non-whitespace characters, in order. */
  function Split(s: string): (ws: seq<string>)
    ensures forall k :: 0 <= k < |ws| ==> IsWord(ws[k])
    decreases |s|
  {
    if s == [] then []
    else if IsSpace(s[0]) then Split(s[1..])
    else
      var n := WordLength(s);
      [s[..n]] + Split(s[n..])
  }

  /** The characters of `s` that are not whitespace, in order. */
  function NonSpace(s: string): string {
    if s == [] then []
    else (if IsSpace(s[0]) then [] else [s[0]]) + NonSpace(s[1..])
  }

  function LowerChar(c: char): char {
    if 'A' <= c <= 'Z' then (c as int - 'A' as int + 'a' as int) as char else c
  }

  /** `str.lower()`. */
  function Lower(s: string): (r: string)
    ensures |r| == |s|
    ensures forall i :: 0 <= i < |r| ==> !('A' <= r[i] <= 'Z')
    ensures forall i :: 0 <= i < |s| && !('A' <= s[i] <= 'Z') ==> r[i] == s[i]
    ensures forall i :: 0 <= i < |s| && 'A' <= s[i] <= 'Z' ==> r[i] as int == s[i] as int + 32
  {
    seq(|s|, i requires 0 <= i < |s| => LowerChar(s[i]))
  }

  /** `parse_input`: a blank line gives no command and no arguments;
      otherwise the first word, lower-cased, and the remaining words. */
  function ParseInput(s: string): (r: (string, seq<string>))
    ensures IsBlank(s) ==> r == ("", [])
    ensures !IsBlank(s) ==> r == (Lower(Split(s)[0]), Split(s)[1..])
    ensures !IsBlank(s) ==> r.0 != "" && |r.1| == |Split(s)| - 1
    ensures forall i :: 0 <= i < |r.0| ==> !('A' <= r.0[i] <= 'Z')
    ensures forall k :: 0 <= k < |r.1| ==> IsWord(r.1[k])
  {
    if IsBlank(s) then ("", [])
    else
      var parts := Split(s);
      (Lower(parts[0]), parts[1..])
  }

  /** A line is blank exactly when every character of it is whitespace. */
  lemma {:induction false} BlankIsAllSpace(s: string)
    ensures IsBlank(s) <==> forall i :: 0 <= i < |s| ==> IsSpace(s[i])
    decreases |s|
  {
    if s != [] {
      BlankIsAllSpace(s[1..]);
      if IsSpace(s[0]) && IsBlank(s[1..]) {
        forall i | 0 <= i < |s| ensures IsSpace(s[i]) {
          if i > 0 { assert s[i] == s[1..][i - 1]; }
        }
      } else if IsSpace(s[0]) {
        var i :| 0 <= i < |s[1..]| && !IsSpace(s[1..][i]);
        assert !IsSpace(s[i + 1]);
      }
    }
  }

  /** A word followed by nothing, or by whitespace, is read as a whole. */
  lemma {:induction false} WordLengthOfWord(w: string, rest: string)
    requires IsWord(w)
    requires rest == [] || IsSpace(rest[0])
    ensures WordLength(w + rest) == |w|
    decreases |w|
  {
    assert (w + rest)[0] == w[0];
    if |w| > 1 {
      assert (w + rest)[1..] == w[1..] + rest;
      WordLengthOfWord(w[1..], rest);
    } else {
      assert (w + rest)[1..] == rest;
    }
  }

  /** Words joined by single spaces split back into the same words. */
  lemma {:induction false} SplitJoin(ws: seq<string>)
    requires forall k :: 0 <= k < |ws| ==> IsWord(ws[k])
    ensures Split(Join(ws, " ")) == ws
  {
    if ws == [] {
    } else if |ws| == 1 {
      var w := ws[0];
      WordLengthOfWord(w, []);
      assert w + [] == w;
      assert w[..|w|] == w && w[|w|..] == [];
    } else {
      var w, tail := ws[0], Join(ws[1..], " ");
      var s := w + " " + tail;
      assert Join(ws, " ") == s;
      WordLengthOfWord(w, " " + tail);
      assert s == w + (" " + tail);
      assert s[..|w|] == w;
      assert s[|w|..] == " " + tail;
      assert (" " + tail)[1..] == tail;
      SplitJoin(ws[1..]);
      assert [w] + ws[1..] == ws;
    }
  }

  lemma {:induction false} NonSpaceAppend(a: string, b: string)
    ensures NonSpace(a + b) == NonSpace(a) + NonSpace(b)
    decreases |a|
  {
    if a == [] {
      assert a + b == b;
    } else {
      assert (a + b)[0] == a[0];
      assert (a + b)[1..] == a[1..] + b;
      NonSpaceAppend(a[1..], b);
    }
  }

  lemma {:induction false} NonSpaceOfWord(w: string)
    requires forall i :: 0 <= i < |w| ==> !IsSpace(w[i])
    ensures NonSpace(w) == w
    decreases |w|
  {
    if w != [] {
      NonSpaceOfWord(w[1..]);
    }
  }

  /** Splitting loses only whitespace: the words, run together, are the
      line's other characters in their order. */
  lemma {:induction false} SplitKeepsText(s: string)
    ensures Concat(Split(s)) == NonSpace(s)
    decreases |s|
  {
    if s != [] {
      if IsSpace(s[0]) {
        SplitKeepsText(s[1..]);
      } else {
        var n := WordLength(s);
        assert s == s[..n] + s[n..];
        NonSpaceAppend(s[..n], s[n..]);
        NonSpaceOfWord(s[..n]);
        SplitKeepsText(s[n..]);
        ConcatCons(s[..n], Split(s[n..]));
      }
    }
  }

  /** The words of `ws` run together. */
  function Concat(ws: seq<string>): string {
    if ws == [] then [] else ws[0] + Concat(ws[1..])
  }

  lemma ConcatCons(w: string, ws: seq<string>)
    ensures Concat([w] + ws) == w + Concat(ws)
  {
    assert ([w] + ws)[1..] == ws;
  }

  /** A command typed as words separated by single spaces comes back as its
      lower-cased first word and the other words unchanged. */
  lemma ParseInputOfWords(command: string, args: seq<string>)
    requires IsWord(command)
    requires forall k :: 0 <= k < |args| ==> IsWord(args[k])
    ensures ParseInput(Join([command] + args, " ")) == (Lower(command), args)
  {
    var ws := [command] + args;
    assert forall k :: 0 <= k < |ws| ==> IsWord(ws[k]);
    SplitJoin(ws);
    assert ws[1..] == args;
  }

  /** Where `Squeeze` stands while reading a line: before its first word,
      inside a word, or after a word and some whitespace. */
  datatype Gap = Leading | InWord | Between

  /** The rest `s` of a line with whitespace squeezed, character by
      character: whitespace is dropped, and a word character that follows
      whitespace after an earlier word is preceded by one space. */
  function SqueezeFrom(s: string, at: Gap): string
    decreases |s|
  {
    if s == [] then []
    else if IsSpace(s[0]) then SqueezeFrom(s[1..], if at == Leading then Leading else Between)
    else (if at == Between then " " else "") + [s[0]] + SqueezeFrom(s[1..], InWord)
  }

  /** The line with leading and trailing whitespace removed and every inner
      run of whitespace replaced by one space. */
  function Squeeze(s: string): string {
    SqueezeFrom(s, Leading)
  }

  /** Inside a word, squeezing copies the rest of the word. */
  lemma {:induction false} SqueezeInWord(s: string)
    ensures SqueezeFrom(s, InWord) == s[..WordLength(s)] + SqueezeFrom(s[WordLength(s)..], Between)
    decreases |s|
  {
    if s != [] && !IsSpace(s[0]) {
      SqueezeInWord(s[1..]);
      WordAfterFirst(s);
      SqueezeWordStep(s, InWord);
      Regroup("", [s[0]], s[1..][..WordLength(s) - 1], SqueezeFrom(s[WordLength(s)..], Between));
    }
  }

  /** A line that starts with a word squeezes into that word, after one
      space when it follows an earlier word, and then its rest. */
  lemma SqueezeWordFirst(s: string, at: Gap)
    requires s != [] && !IsSpace(s[0]) && at != InWord
    ensures SqueezeFrom(s, at) ==
              (if at == Between then " " else "") + s[..WordLength(s)] + SqueezeFrom(s[WordLength(s)..], Between)
  {
    SqueezeInWord(s[1..]);
    WordAfterFirst(s);
    SqueezeWordStep(s, at);
    Regroup(if at == Between then " " else "", [s[0]], s[1..][..WordLength(s) - 1], SqueezeFrom(s[WordLength(s)..], Between));
  }

  /** One word character read. */
  lemma SqueezeWordStep(s: string, at: Gap)
    requires s != [] && !IsSpace(s[0])
    ensures SqueezeFrom(s, at) == (if at == Between then " " else "") + [s[0]] + SqueezeFrom(s[1..], InWord)
  {
  }

  lemma Regroup(a: string, b: string, c: string, d: string)
    ensures a + b + (c + d) == a + (b + c) + d
    ensures "" + b + (c + d) == (b + c) + d
  {
  }

  lemma WordAfterFirst(s: string)
    requires s != [] && !IsSpace(s[0])
    ensures var n := WordLength(s);
            && WordLength(s[1..]) == n - 1
            && [s[0]] + s[1..][..n - 1] == s[..n]
            && s[1..][n - 1..] == s[n..]
  {
    HeadSlices(s, WordLength(s));
  }

  lemma HeadSlices(s: string, n: int)
    requires 1 <= n <= |s|
    ensures [s[0]] + s[1..][..n - 1] == s[..n]
    ensures s[1..][n - 1..] == s[n..]
  {
    assert [s[0]] + s[1..][..n - 1] == s[..n];
  }

  lemma JoinCons(w: string, ws: seq<string>)
    ensures Join([w] + ws, " ") == if ws == [] then w else w + " " + Join(ws, " ")
  {
    assert ([w] + ws)[1..] == ws;
  }

  lemma {:induction false} SqueezeSplit(s: string, at: Gap)
    requires at != InWord
    ensures SqueezeFrom(s, at) ==
              if Split(s) == [] then [] else (if at == Between then " " else "") + Join(Split(s), " ")
    decreases |s|
  {
    if s == [] {
    } else if IsSpace(s[0]) {
      SqueezeSplit(s[1..], at);
    } else {
      var n := WordLength(s);
      SqueezeWordFirst(s, at);
      SqueezeSplit(s[n..], Between);
      JoinCons(s[..n], Split(s[n..]));
    }
  }

  /** `str.split()` against the squeezed line: the words joined by single
      spaces are the line squeezed character by character, and splitting
      the squeezed line gives the same words. */
  lemma SplitSqueezes(s: string)
    ensures Join(Split(s), " ") == Squeeze(s)
    ensures Split(Squeeze(s)) == Split(s)
  {
    SqueezeSplit(s, Leading);
    SplitJoin(Split(s));
  }
}
