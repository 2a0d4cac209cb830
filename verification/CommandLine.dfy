/**
 The word encoder of the command-line reader in Build/IPCam_Builder.js: words are
 escaped by three global replacements so that '#' can separate them, and recovered
 by splitting and three replacements back.
 */
module CommandLine {
  import opened Sequences

  predicate StartsWith(s: string, pat: string) {
    |pat| <= |s| && forall i :: 0 <= i < |pat| ==> s[i] == pat[i]
  }

  /** `s.replace(/pat/g, rep)` for a literal pattern: leftmost matches, none overlapping. */
  function ReplaceAll(s: string, pat: string, rep: string): string
    requires pat != ""
  {
    if s == "" then ""
    else if StartsWith(s, pat) then rep + ReplaceAll(s[|pat|..], pat, rep)
    else [s[0]] + ReplaceAll(s[1..], pat, rep)
  }

  function EscapeWords(s: string): string {
    var s := ReplaceAll(s, "@", "@@@");
    var s := ReplaceAll(s, "-", "@@-");
    ReplaceAll(s, "#", "@--")
  }

  function UnescapeWords(s: string): string {
    var s := ReplaceAll(s, "@--", "#");
    var s := ReplaceAll(s, "@@-", "-");
    ReplaceAll(s, "@@@", "@")
  }

  /** `s.split("#")`: one more part than there are separators. */
  function Split(s: string): (parts: seq<string>)
    ensures parts != []
  {
    if s == "" then [""]
    else
      var parts := Split(s[1..]);
      if s[0] == '#' then [""] + parts else [[s[0]] + parts[0]] + parts[1..]
  }

  // --------------------------------------------------------------------------
  // Escaping as a code, character by character
  // --------------------------------------------------------------------------

  /** Parts with a separator between them. */
  function Rejoin(parts: seq<string>): string
    requires parts != []
  {
    if |parts| == 1 then parts[0] else parts[0] + "#" + Rejoin(parts[1..])
  }

  /** The parts hold no separator, and with one between them they make up the line again. */
  lemma {:induction false} SplitAndRejoin(s: string)
    ensures Rejoin(Split(s)) == s
    ensures forall i :: 0 <= i < |Split(s)| ==> '#' !in Split(s)[i]
  {
    if s != "" {
      var parts, rest := Split(s), Split(s[1..]);
      SplitAndRejoin(s[1..]);
      assert s == [s[0]] + s[1..];
      if s[0] == '#' {
        assert parts == [""] + rest && parts[1..] == rest;
        assert "" + "#" + s[1..] == s;
      } else {
        assert parts[1..] == rest[1..];
        assert |rest| > 1 ==> [s[0]] + rest[0] + "#" + Rejoin(rest[1..]) == [s[0]] + (rest[0] + "#" + Rejoin(rest[1..]));
      }
    }
  }

  /** Which of the three special characters are still encoded. */
  datatype Stage = Stage(at: bool, dash: bool, hash: bool)

  const ENCODED := Stage(true, true, true)

  function Code(g: Stage, c: char): (w: string)
    ensures w != ""
  {
    if c == '@' && g.at then "@@@"
    else if c == '-' && g.dash then "@@-"
    else if c == '#' && g.hash then "@--"
    else [c]
  }

  function Encode(g: Stage, s: string): string {
    if s == "" then "" else Code(g, s[0]) + Encode(g, s[1..])
  }

  /** A one-character pattern is replaced independently in two halves of a string. */
  lemma {:induction false} ReplaceCharDistributes(a: string, b: string, p: char, rep: string)
    ensures ReplaceAll(a + b, [p], rep) == ReplaceAll(a, [p], rep) + ReplaceAll(b, [p], rep)
  {
    if a == "" {
      assert a + b == b;
    } else {
      var rest := ReplaceAll(a[1..], [p], rep);
      ReplaceCharDistributes(a[1..], b, p, rep);
      ReplaceCharStep(a, p, rep);
      ReplaceCharStep(a + b, p, rep);
      assert (a + b)[1..] == a[1..] + b;
      Regroup(if a[0] == p then rep else [a[0]], rest, ReplaceAll(b, [p], rep));
    }
  }

  lemma ReplaceCharStep(s: string, p: char, rep: string)
    requires s != ""
    ensures ReplaceAll(s, [p], rep) == (if s[0] == p then rep else [s[0]]) + ReplaceAll(s[1..], [p], rep)
  {
    assert StartsWith(s, [p]) <==> s[0] == p;
  }

  /** The three codes are told apart by where their dashes are. */
  lemma CodesAre(c: char)
    ensures EscapeWords("@") == "@@@" && EscapeWords("-") == "@@-" && EscapeWords("#") == "@--"
    ensures c != '@' && c != '-' && c != '#' ==> EscapeWords([c]) == [c]
  {
    EscapeOfChar('@');
    EscapeOfChar('-');
    EscapeOfChar('#');
    EscapeOfChar(c);
  }

  /** Replacing a character that occurs only where the code puts it. */
  lemma {:induction false} EscapeIsCode(s: string)
    ensures EscapeWords(s) == Encode(ENCODED, s)
  {
    if s != "" {
      var c, t := s[0], s[1..];
      assert s == [c] + t;
      var t1 := ReplaceAll(t, "@", "@@@");
      var t2 := ReplaceAll(t1, "-", "@@-");
      ReplaceCharDistributes([c], t, '@', "@@@");
      var c1 := ReplaceAll([c], "@", "@@@");
      ReplaceCharDistributes(c1, t1, '-', "@@-");
      var c2 := ReplaceAll(c1, "-", "@@-");
      ReplaceCharDistributes(c2, t2, '#', "@--");
      EscapeOfChar(c);
      EscapeIsCode(t);
    }
  }

  lemma EscapeOfChar(c: char)
    ensures EscapeWords([c]) == Code(ENCODED, c)
  {
    SingleReplace(c, '@', "@@@");
    if c == '@' {
      ReplaceAbsent("@@@", '-', "@@-");
      ReplaceAbsent("@@@", '#', "@--");
    } else {
      SingleReplace(c, '-', "@@-");
      if c == '-' {
        ReplaceAbsent("@@-", '#', "@--");
      } else {
        SingleReplace(c, '#', "@--");
      }
    }
  }

  lemma SingleReplace(c: char, p: char, rep: string)
    ensures ReplaceAll([c], [p], rep) == if c == p then rep else [c]
  {
    ReplaceCharStep([c], p, rep);
    assert [c][1..] == "";
  }

  lemma {:induction false} ReplaceAbsent(w: string, p: char, rep: string)
    requires p !in w
    ensures ReplaceAll(w, [p], rep) == w
  {
    if w != "" {
      ReplaceCharStep(w, p, rep);
      ReplaceAbsent(w[1..], p, rep);
    }
  }

  // --------------------------------------------------------------------------
  // Each unescaping pass removes one layer of the code
  // --------------------------------------------------------------------------

  /** Encoded text never starts with a bare dash, nor with '@' followed by a dash once '#' is decoded. */
  lemma EncodedStart(g: Stage, s: string)
    requires g.at && g.dash
    ensures Encode(g, s) != "" ==> Encode(g, s)[0] != '-'
    ensures !g.hash && |Encode(g, s)| >= 2 && Encode(g, s)[0] == '@' ==> Encode(g, s)[1] == '@'
  {
  }

  /** A string that differs from the pattern at index i loses its first character to the output. */
  lemma Skip(c: char, t: string, pat: string, rep: string, i: nat)
    requires i < |pat| && (i <= |t| ==> ([c] + t)[i] != pat[i])
    ensures ReplaceAll([c] + t, pat, rep) == [c] + ReplaceAll(t, pat, rep)
  {
    var s := [c] + t;
    assert !StartsWith(s, pat);
    assert s[1..] == t;
  }

  lemma Hit(pat: string, t: string, rep: string)
    requires pat != ""
    ensures ReplaceAll(pat + t, pat, rep) == rep + ReplaceAll(t, pat, rep)
  {
    assert StartsWith(pat + t, pat);
    assert (pat + t)[|pat|..] == t;
  }

  /** Three characters, differing from the pattern at i, j and k when read from each of them. */
  lemma SkipThree(a: char, b: char, c: char, t: string, pat: string, rep: string, i: nat, j: nat, k: nat)
    requires |pat| == 3 && i < 3 && j < 3 && k < 3
    requires [a, b, c][i] != pat[i]
    requires if j < 2 then [b, c][j] != pat[j] else t == "" || t[0] != pat[j]
    requires if k == 0 then c != pat[0] else |t| < k || t[k - 1] != pat[k]
    ensures ReplaceAll([a, b, c] + t, pat, rep) == [a, b, c] + ReplaceAll(t, pat, rep)
  {
    var t2 := [c] + t;
    var t1 := [b] + t2;
    var rest := ReplaceAll(t, pat, rep);
    assert [a, b, c] + t == [a] + t1;
    Skip(a, t1, pat, rep, i);
    Skip(b, t2, pat, rep, j);
    Skip(c, t, pat, rep, k);
    assert [a] + ([b] + ([c] + rest)) == [a, b, c] + rest;
  }

  lemma {:induction false} DecodeHash(s: string)
    ensures ReplaceAll(Encode(ENCODED, s), "@--", "#") == Encode(ENCODED.(hash := false), s)
  {
    if s != "" {
      var c, t := s[0], Encode(ENCODED, s[1..]);
      DecodeHash(s[1..]);
      EncodedStart(ENCODED, s[1..]);
      if c == '@' {
        SkipThree('@', '@', '@', t, "@--", "#", 1, 1, 1);
      } else if c == '-' {
        SkipThree('@', '@', '-', t, "@--", "#", 1, 2, 0);
      } else if c == '#' {
        Hit("@--", t, "#");
      } else {
        Skip(c, t, "@--", "#", 0);
      }
    }
  }

  lemma {:induction false} DecodeDash(s: string)
    ensures ReplaceAll(Encode(Stage(true, true, false), s), "@@-", "-") == Encode(Stage(true, false, false), s)
  {
    var g := Stage(true, true, false);
    if s != "" {
      var c, t := s[0], Encode(g, s[1..]);
      DecodeDash(s[1..]);
      EncodedStart(g, s[1..]);
      if c == '@' {
        SkipThree('@', '@', '@', t, "@@-", "-", 2, 2, if t != "" && t[0] == '@' then 2 else 1);
      } else if c == '-' {
        Hit("@@-", t, "-");
      } else {
        Skip(c, t, "@@-", "-", 0);
      }
    }
  }

  lemma {:induction false} DecodeAt(s: string)
    ensures ReplaceAll(Encode(Stage(true, false, false), s), "@@@", "@") == s
  {
    var g := Stage(true, false, false);
    if s != "" {
      var c, t := s[0], Encode(g, s[1..]);
      DecodeAt(s[1..]);
      if c == '@' {
        Hit("@@@", t, "@");
      } else {
        Skip(c, t, "@@@", "@", 0);
      }
    }
  }

  /** The three passes back undo the three passes forth, for every string. */
  lemma RoundTrip(s: string)
    ensures UnescapeWords(EscapeWords(s)) == s
  {
    EscapeIsCode(s);
    DecodeHash(s);
    DecodeDash(s);
    DecodeAt(s);
  }

  lemma {:induction false} NoSeparator(s: string)
    ensures '#' !in Encode(ENCODED, s)
  {
    if s != "" {
      NoSeparator(s[1..]);
    }
  }

  lemma EscapedIsSeparable(s: string)
    ensures '#' !in EscapeWords(s)
    ensures EscapeWords(s) == "" <==> s == ""
  {
    EscapeIsCode(s);
    NoSeparator(s);
  }

  // --------------------------------------------------------------------------
  // Whole command lines
  // --------------------------------------------------------------------------

  /** Words escaped and joined by '#'. */
  function JoinWords(words: seq<string>): string {
    if words == [] then ""
    else if |words| == 1 then EscapeWords(words[0])
    else EscapeWords(words[0]) + "#" + JoinWords(words[1..])
  }

  function NonEmpty(words: seq<string>): seq<string> {
    if words == [] then []
    else (if words[0] == "" then [] else [words[0]]) + NonEmpty(words[1..])
  }

  /** Only the empty words go, and the others stay in order. */
  lemma {:induction false} NonEmptyKeeps(words: seq<string>)
    ensures multiset(NonEmpty(words)) == multiset(words)["" := 0]
    ensures "" !in words ==> NonEmpty(words) == words
  {
    if words != [] {
      NonEmptyKeeps(words[1..]);
      assert words == [words[0]] + words[1..];
      assert multiset(words) == multiset{words[0]} + multiset(words[1..]);
    }
  }

  function UnescapeAll(parts: seq<string>): seq<string> {
    if parts == [] then [] else [UnescapeWords(parts[0])] + UnescapeAll(parts[1..])
  }

  lemma {:induction false} SplitAt(a: string, b: string)
    requires '#' !in a
    ensures Split(a) == [a]
    ensures Split(a + "#" + b) == [a] + Split(b)
  {
    var s := a + "#" + b;
    if a == "" {
      assert s[1..] == b;
    } else {
      SplitAt(a[1..], b);
      assert s[1..] == a[1..] + "#" + b;
      assert a == [a[0]] + a[1..];
    }
  }

  /** Splitting and unescaping the joined line gives the words back, without the empty ones. */
  lemma {:induction false} WordsRecovered(words: seq<string>)
    ensures UnescapeAll(NonEmpty(Split(JoinWords(words)))) == NonEmpty(words)
  {
    if words != [] {
      var w, rest := words[0], words[1..];
      var e := EscapeWords(w);
      EscapedIsSeparable(w);
      RoundTrip(w);
      SplitAt(e, JoinWords(rest));
      if |words| > 1 {
        WordsRecovered(rest);
        var parts := Split(JoinWords(rest));
        assert ([e] + parts)[1..] == parts;
        UnescapeCons(e, NonEmpty(parts));
      } else {
        UnescapeCons(e, []);
        assert NonEmpty([e]) == (if e == "" then [] else [e]) + NonEmpty([]);
      }
    }
  }

  lemma UnescapeCons(e: string, parts: seq<string>)
    ensures UnescapeAll([e] + parts) == [UnescapeWords(e)] + UnescapeAll(parts)
    ensures UnescapeAll([] + parts) == UnescapeAll(parts)
  {
    assert ([e] + parts)[1..] == parts;
    assert [] + parts == parts;
  }

  lemma {:induction false} UnescapeEach(parts: seq<string>)
    ensures |UnescapeAll(parts)| == |parts|
    ensures forall i :: 0 <= i < |parts| ==> UnescapeAll(parts)[i] == UnescapeWords(parts[i])
  {
    if parts != [] {
      UnescapeEach(parts[1..]);
    }
  }

  /** The parts of a joined line are the escaped words, one for each. */
  lemma {:induction false} SplitOfJoined(words: seq<string>)
    requires words != []
    ensures |Split(JoinWords(words))| == |words|
    ensures forall i :: 0 <= i < |words| ==> Split(JoinWords(words))[i] == EscapeWords(words[i])
  {
    EscapedIsSeparable(words[0]);
    SplitAt(EscapeWords(words[0]), JoinWords(words[1..]));
    if |words| > 1 {
      SplitOfJoined(words[1..]);
    }
  }

  lemma {:induction false} UnescapeAppend(parts: seq<string>, e: string)
    ensures UnescapeAll(parts + [e]) == UnescapeAll(parts) + [UnescapeWords(e)]
  {
    if parts != [] {
      UnescapeAppend(parts[1..], e);
      assert (parts + [e])[1..] == parts[1..] + [e];
    }
  }

  lemma {:induction false} NonEmptyAppend(parts: seq<string>, e: string)
    ensures NonEmpty(parts + [e]) == NonEmpty(parts) + if e == "" then [] else [e]
  {
    if parts != [] {
      NonEmptyAppend(parts[1..], e);
      assert (parts + [e])[1..] == parts[1..] + [e];
    }
  }

  lemma CollectNext(args: seq<string>, i: nat)
    requires i < |args|
    ensures UnescapeAll(NonEmpty(args[..i + 1]))
         == UnescapeAll(NonEmpty(args[..i])) + if args[i] == "" then [] else [UnescapeWords(args[i])]
  {
    assert args[..i + 1] == args[..i] + [args[i]];
    NonEmptyAppend(args[..i], args[i]);
    if args[i] == "" {
      assert NonEmpty(args[..i]) + [] == NonEmpty(args[..i]);
    } else {
      UnescapeAppend(NonEmpty(args[..i]), args[i]);
    }
  }

  lemma AllLinesRecovered(line: string, argv: seq<string>)
    requires argv == UnescapeAll(NonEmpty(Split(line)))
    ensures forall words :: line == JoinWords(words) ==> argv == NonEmpty(words)
    ensures forall words :: line == JoinWords(words) && "" !in words ==> argv == words
  {
    forall words | line == JoinWords(words)
      ensures argv == NonEmpty(words) && ("" !in words ==> argv == words)
    {
      WordsRecovered(words);
      NonEmptyKeeps(words);
    }
  }

  /** The split and the loop that collects the unescaped words. */
  method WordsToArgv(line: string) returns (argv: seq<string>)
    ensures argv == UnescapeAll(NonEmpty(Split(line)))
    ensures forall words :: line == JoinWords(words) ==> argv == NonEmpty(words)
    ensures forall words :: line == JoinWords(words) && "" !in words ==> argv == words
  {
    var args := Split(line);
    argv := [];
    var i := 0;
    while i < |args|
      invariant i <= |args|
      invariant argv == UnescapeAll(NonEmpty(args[..i]))
    {
      CollectNext(args, i);
      if |args[i]| > 0 {
        argv := argv + [UnescapeWords(args[i])];
      }
      i := i + 1;
    }
    assert args[..|args|] == args;
    AllLinesRecovered(line, argv);
  }
}
