/**
 * String primitives the activity script relies on, stated in Dafny terms:
 * `String.prototype.trim`, `split("\n")` / `join("\n")`, `indexOf`,
 * `replace` with a literal pattern (first occurrence) and with a global
 * literal pattern (every occurrence), and decimal rendering of numbers.
 */
module StringUtil {

  datatype Option<+T> = None | Some(value: T)

  /** The characters `String.prototype.trim` strips: ECMAScript WhiteSpace and LineTerminator. */
  predicate IsWhitespace(c: char) {
    c == ' ' || c == '\t' || c == '\n' || c == '\r' || c == '\U{000B}' || c == '\U{000C}'
    || c == '\U{00A0}' || c == '\U{1680}' || ('\U{2000}' <= c <= '\U{200A}')
    || c == '\U{2028}' || c == '\U{2029}' || c == '\U{202F}' || c == '\U{205F}'
    || c == '\U{3000}' || c == '\U{FEFF}'
  }

  /** Drops leading whitespace. */
  function TrimStart(s: string): (r: string)
    ensures |r| <= |s|
  {
    if s != [] && IsWhitespace(s[0]) then TrimStart(s[1..]) else s
  }

  /** Drops trailing whitespace. */
  function TrimEnd(s: string): (r: string)
    ensures |r| <= |s|
  {
    if s != [] && IsWhitespace(s[|s| - 1]) then TrimEnd(s[..|s| - 1]) else s
  }

  /** `s.trim()`. */
  function Trim(s: string): (r: string)
    ensures |r| <= |s|
  {
    TrimEnd(TrimStart(s))
  }

  /** TrimStart keeps a suffix, drops only whitespace, and stops at a non-whitespace character. */
  lemma {:induction false} TrimStartSpec(s: string)
    ensures var r := TrimStart(s);
      r == s[|s| - |r|..] && (r != [] ==> !IsWhitespace(r[0]))
      && forall i :: 0 <= i < |s| - |r| ==> IsWhitespace(s[i])
  {
    if s != [] && IsWhitespace(s[0]) {
      TrimStartSpec(s[1..]);
    }
  }

  /** TrimEnd keeps a prefix, drops only whitespace, and stops at a non-whitespace character. */
  lemma {:induction false} TrimEndSpec(s: string)
    ensures var r := TrimEnd(s);
      r == s[..|r|] && (r != [] ==> !IsWhitespace(r[|r| - 1]))
      && forall i :: |r| <= i < |s| ==> IsWhitespace(s[i])
  {
    if s != [] && IsWhitespace(s[|s| - 1]) {
      TrimEndSpec(s[..|s| - 1]);
    }
  }

  /**
   * `s.trim()` is the infix `s[lo..lo + |r|]` obtained by dropping whitespace
   * only, and neither of its ends is whitespace.
   */
  lemma TrimSpec(s: string) returns (lo: nat)
    ensures var r := Trim(s);
      lo + |r| <= |s| && r == s[lo..lo + |r|]
      && (forall i :: 0 <= i < lo ==> IsWhitespace(s[i]))
      && (forall i :: lo + |r| <= i < |s| ==> IsWhitespace(s[i]))
      && (r != [] ==> !IsWhitespace(r[0]) && !IsWhitespace(r[|r| - 1]))
  {
    var t := TrimStart(s);
    TrimStartSpec(s);
    TrimEndSpec(t);
    lo := |s| - |t|;
    var r := Trim(s);
    assert r == t[..|r|];
    assert forall i :: lo + |r| <= i < |s| ==> s[i] == t[i - lo];
  }

  /** A string that starts with a non-whitespace character keeps it as the first character of its trim. */
  lemma TrimKeepsFirst(s: string)
    requires s != [] && !IsWhitespace(s[0])
    ensures Trim(s) != [] && Trim(s)[0] == s[0]
  {
    var lo := TrimSpec(s);
  }

  /** A string that neither starts nor ends with whitespace is its own trim. */
  lemma TrimOfTrimmed(s: string)
    requires s != [] ==> !IsWhitespace(s[0]) && !IsWhitespace(s[|s| - 1])
    ensures Trim(s) == s
  {
  }

  /** `lines.join("\n")`. */
  function Join(lines: seq<string>): (r: string)
    ensures lines == [] ==> r == ""
    ensures |lines| == 1 ==> r == lines[0]
  {
    if lines == [] then ""
    else if |lines| == 1 then lines[0]
    else lines[0] + "\n" + Join(lines[1..])
  }

  /** `n` empty lines. */
  function Blanks(n: nat): (r: seq<string>)
    ensures |r| == n && forall k :: 0 <= k < n ==> r[k] == ""
  {
    seq(n, _ => "")
  }

  /** `n` newline characters. */
  function Newlines(n: nat): (r: string)
    ensures |r| == n && forall k :: 0 <= k < n ==> r[k] == '\n'
  {
    seq(n, _ => '\n')
  }

  /** Joining two non-empty runs of lines puts one newline between them. */
  lemma {:induction false} JoinAppend(a: seq<string>, b: seq<string>)
    requires a != [] && b != []
    ensures Join(a + b) == Join(a) + "\n" + Join(b)
    decreases |a|
  {
    if |a| > 1 {
      JoinAppend(a[1..], b);
      assert (a + b)[1..] == a[1..] + b;
    } else {
      assert (a + b)[1..] == b;
    }
  }

  /** `n` empty lines join to `n - 1` newlines. */
  lemma {:induction false} JoinBlanks(n: nat)
    requires n > 0
    ensures Join(Blanks(n)) == Newlines(n - 1)
  {
    if n > 1 {
      JoinBlanks(n - 1);
      assert Blanks(n)[1..] == Blanks(n - 1);
      assert Newlines(n - 1) == "\n" + Newlines(n - 2);
    }
  }

  /** Empty lines before and after non-empty lines join to newlines around their text. */
  lemma JoinFramed(p: nat, lines: seq<string>, q: nat)
    requires lines != []
    ensures Join(Blanks(p) + lines + Blanks(q)) == Newlines(p) + Join(lines) + Newlines(q)
  {
    JoinLeading(p, lines);
    JoinTrailing(Blanks(p) + lines, q);
  }

  /** `p` empty lines in front of the lines become `p` newlines in front of their join. */
  lemma JoinLeading(p: nat, lines: seq<string>)
    requires lines != []
    ensures Join(Blanks(p) + lines) == Newlines(p) + Join(lines)
  {
    if p > 0 {
      JoinAppend(Blanks(p), lines);
      JoinBlanks(p);
      assert Newlines(p) == Newlines(p - 1) + "\n";
    } else {
      assert Blanks(p) + lines == lines;
    }
  }

  /** `q` empty lines after the lines become `q` newlines after their join. */
  lemma JoinTrailing(lines: seq<string>, q: nat)
    requires lines != []
    ensures Join(lines + Blanks(q)) == Join(lines) + Newlines(q)
  {
    if q > 0 {
      JoinAppend(lines, Blanks(q));
      JoinBlanks(q);
      assert Newlines(q) == "\n" + Newlines(q - 1);
    } else {
      assert lines + Blanks(q) == lines;
    }
  }

  /** Whitespace in front of a text is dropped by TrimStart. */
  lemma {:induction false} TrimStartPrefix(w: string, x: string)
    requires forall k :: 0 <= k < |w| ==> IsWhitespace(w[k])
    ensures TrimStart(w + x) == TrimStart(x)
    decreases |w|
  {
    if w != [] {
      assert (w + x)[1..] == w[1..] + x;
      TrimStartPrefix(w[1..], x);
    } else {
      assert w + x == x;
    }
  }

  /** Whitespace after a text is dropped by TrimEnd. */
  lemma {:induction false} TrimEndSuffix(x: string, w: string)
    requires forall k :: 0 <= k < |w| ==> IsWhitespace(w[k])
    ensures TrimEnd(x + w) == TrimEnd(x)
    decreases |w|
  {
    if w != [] {
      assert (x + w)[..|x + w| - 1] == x + w[..|w| - 1];
      TrimEndSuffix(x, w[..|w| - 1]);
    } else {
      assert x + w == x;
    }
  }

  /** A text that starts with a non-whitespace character trims the same with whitespace around it. */
  lemma TrimFramed(w1: string, x: string, w2: string)
    requires forall k :: 0 <= k < |w1| ==> IsWhitespace(w1[k])
    requires forall k :: 0 <= k < |w2| ==> IsWhitespace(w2[k])
    requires x != [] && !IsWhitespace(x[0])
    ensures Trim(w1 + x + w2) == Trim(x)
  {
    assert w1 + x + w2 == w1 + (x + w2);
    TrimStartPrefix(w1, x + w2);
    assert (x + w2)[0] == x[0];
    TrimEndSuffix(x, w2);
  }

  /** `s.split("\n")`: the pieces between newline characters; never empty. */
  function Split(s: string): (r: seq<string>)
    ensures r != []
    ensures forall k :: 0 <= k < |r| ==> '\n' !in r[k]
    decreases |s|
  {
    if '\n' !in s then [s]
    else
      var i := FirstNewline(s);
      [s[..i]] + Split(s[i + 1..])
  }

  /** Index of the first newline of a string that has one. */
  function FirstNewline(s: string): (i: nat)
    requires '\n' in s
    ensures i < |s| && s[i] == '\n' && '\n' !in s[..i]
  {
    if s[0] == '\n' then 0
    else
      assert s == [s[0]] + s[1..];
      1 + FirstNewline(s[1..])
  }

  /** A newline with no newline before it is the first one. */
  lemma {:induction false} FirstNewlineAt(s: string, n: nat)
    requires n < |s| && s[n] == '\n' && '\n' !in s[..n]
    ensures FirstNewline(s) == n
  {
    if n > 0 {
      assert s[0] == s[..n][0];
      assert s[1..][..n - 1] == s[..n][1..];
      FirstNewlineAt(s[1..], n - 1);
    }
  }

  /** Writing the lines out and reading them back gives the same lines. */
  lemma {:induction false} SplitJoin(lines: seq<string>)
    requires lines != []
    requires forall k :: 0 <= k < |lines| ==> '\n' !in lines[k]
    ensures Split(Join(lines)) == lines
  {
    if |lines| > 1 {
      SplitCons(lines[0], Join(lines[1..]));
      SplitJoin(lines[1..]);
      assert lines == [lines[0]] + lines[1..];
    }
  }

  /** Splitting a line without newlines, a newline and a text gives that line, then the text's lines. */
  lemma SplitCons(a: string, t: string)
    requires '\n' !in a
    ensures Split(a + "\n" + t) == [a] + Split(t)
  {
    var s := a + "\n" + t;
    assert s[..|a|] == a;
    FirstNewlineAt(s, |a|);
    assert s[|a| + 1..] == t;
  }

  /** Reading a text as lines and writing them back gives the same text. */
  lemma {:induction false} JoinSplit(s: string)
    ensures Join(Split(s)) == s
    decreases |s|
  {
    if '\n' in s {
      var i := FirstNewline(s);
      JoinSplit(s[i + 1..]);
      assert s == s[..i] + "\n" + s[i + 1..];
    }
  }

  /** `tok` occurs in `s` starting at index `j`. */
  predicate OccursAt(s: string, tok: string, j: int) {
    0 <= j && j + |tok| <= |s| && s[j..j + |tok|] == tok
  }

  /** `s.indexOf(tok)` for a non-empty `tok`, with `None` for -1. */
  function IndexOf(s: string, tok: string): (r: Option<nat>)
    requires |tok| > 0
    ensures r.Some? ==> r.value + |tok| <= |s|
    decreases |s|
  {
    if |s| < |tok| then None
    else if s[..|tok|] == tok then Some(0)
    else
      match IndexOf(s[1..], tok)
      case None => None
      case Some(i) => Some(i + 1)
  }

  /** The index found is the first occurrence of `tok`, and `None` means there is none. */
  lemma {:induction false} IndexOfSpec(s: string, tok: string)
    requires |tok| > 0
    ensures var r := IndexOf(s, tok);
      && (r.Some? ==> OccursAt(s, tok, r.value))
      && (r.Some? ==> forall j :: 0 <= j < r.value ==> !OccursAt(s, tok, j))
      && (r.None? ==> forall j :: 0 <= j ==> !OccursAt(s, tok, j))
    decreases |s|
  {
    if |s| >= |tok| && s[..|tok|] != tok {
      IndexOfSpec(s[1..], tok);
      assert !OccursAt(s, tok, 0);
      forall j | 1 <= j
        ensures OccursAt(s, tok, j) <==> OccursAt(s[1..], tok, j - 1)
      {
        OccursShift(s, tok, j - 1);
      }
    }
  }

  /** An occurrence one position further in `s` is an occurrence in `s[1..]`. */
  lemma OccursShift(s: string, tok: string, j: nat)
    requires s != []
    ensures OccursAt(s, tok, j + 1) <==> OccursAt(s[1..], tok, j)
  {
    if j + 1 + |tok| <= |s| {
      assert s[j + 1..j + 1 + |tok|] == s[1..][j..j + |tok|];
    }
  }

  /** `s.replace(tok, rep)` with a string pattern: only the first occurrence is replaced. */
  function ReplaceFirst(s: string, tok: string, rep: string): string
    requires |tok| > 0
  {
    match IndexOf(s, tok)
    case None => s
    case Some(i) => s[..i] + rep + s[i + |tok|..]
  }

  /** An occurrence of `tok` at `i` with none before it is the one `indexOf` finds. */
  lemma IndexOfFirst(s: string, tok: string, i: nat)
    requires |tok| > 0 && OccursAt(s, tok, i)
    requires forall j :: 0 <= j < i ==> !OccursAt(s, tok, j)
    ensures IndexOf(s, tok) == Some(i)
  {
    IndexOfSpec(s, tok);
  }

  /** Without any occurrence of `tok`, `indexOf` finds none. */
  lemma IndexOfNone(s: string, tok: string)
    requires |tok| > 0 && forall j :: 0 <= j ==> !OccursAt(s, tok, j)
    ensures IndexOf(s, tok).None?
  {
    IndexOfSpec(s, tok);
  }

  /**
   * A string-pattern replace changes the first occurrence only: for the
   * occurrence at `i` with none before it, the text before and after it is
   * kept and `rep` takes its place.
   */
  lemma ReplaceFirstAtFirst(s: string, tok: string, rep: string, i: nat)
    requires |tok| > 0 && OccursAt(s, tok, i)
    requires forall j :: 0 <= j < i ==> !OccursAt(s, tok, j)
    ensures ReplaceFirst(s, tok, rep) == s[..i] + rep + s[i + |tok|..]
  {
    IndexOfFirst(s, tok, i);
  }

  /** A string-pattern replace leaves a text without an occurrence as it is. */
  lemma ReplaceFirstWithout(s: string, tok: string, rep: string)
    requires |tok| > 0 && forall j :: 0 <= j ==> !OccursAt(s, tok, j)
    ensures ReplaceFirst(s, tok, rep) == s
  {
    IndexOfNone(s, tok);
  }

  /** `tok` occurs nowhere before the end of a prefix lacking its first character. */
  lemma NotInPrefix(x: string, y: string, tok: string)
    requires |tok| > 0 && tok[0] !in x
    ensures forall j :: 0 <= j < |x| ==> !OccursAt(x + y, tok, j)
  {
    var s := x + y;
    forall j | 0 <= j < |x|
      ensures !OccursAt(s, tok, j)
    {
      assert s[j] == x[j];
      if j + |tok| <= |s| {
        assert s[j..j + |tok|][0] == s[j];
      }
    }
  }

  /** A string-pattern replace acts on the occurrence that follows a prefix lacking the token's first character. */
  lemma ReplaceFirstAt(x: string, tok: string, z: string, rep: string)
    requires |tok| > 0 && tok[0] !in x
    ensures ReplaceFirst(x + tok + z, tok, rep) == x + rep + z
  {
    var s := x + tok + z;
    assert s == x + (tok + z);
    NotInPrefix(x, tok + z, tok);
    IndexOfSpec(s, tok);
    assert s[|x|..|x| + |tok|] == tok;
    assert OccursAt(s, tok, |x|);
    assert IndexOf(s, tok) == Some(|x|);
    assert s[..|x|] == x;
    assert s[|x| + |tok|..] == z;
  }

  /** A string-pattern replace leaves a text lacking the token's first character as it is. */
  lemma ReplaceFirstAbsent(s: string, tok: string, rep: string)
    requires |tok| > 0 && tok[0] !in s
    ensures ReplaceFirst(s, tok, rep) == s
  {
    assert s + [] == s;
    NotInPrefix(s, [], tok);
    IndexOfSpec(s, tok);
  }

  /** The pieces of a text written one after the other. */
  function Concat(pieces: seq<string>): (r: string)
    ensures |pieces| == 1 ==> r == pieces[0]
  {
    if pieces == [] then "" else pieces[0] + Concat(pieces[1..])
  }

  /** `Concat` around the piece at index `i`. */
  lemma {:induction false} ConcatSplit(pieces: seq<string>, i: nat)
    requires i < |pieces|
    ensures Concat(pieces) == Concat(pieces[..i]) + pieces[i] + Concat(pieces[i + 1..])
    decreases i
  {
    if i > 0 {
      ConcatSplit(pieces[1..], i - 1);
      assert pieces[1..][..i - 1] == pieces[1..i];
      assert pieces[1..][i - 1] == pieces[i];
      assert pieces[1..][i..] == pieces[i + 1..];
      assert pieces[..i] == [pieces[0]] + pieces[1..i];
      assert pieces[..i][1..] == pieces[1..i];
    } else {
      assert pieces[..0] == [];
      assert pieces[1..] == pieces[i + 1..];
    }
  }

  /** A character missing from every piece is missing from their concatenation. */
  lemma {:induction false} ConcatLacks(pieces: seq<string>, c: char)
    requires forall k :: 0 <= k < |pieces| ==> c !in pieces[k]
    ensures c !in Concat(pieces)
    decreases |pieces|
  {
    if pieces != [] {
      assert forall k :: 0 <= k < |pieces[1..]| ==> pieces[1..][k] == pieces[k + 1];
      ConcatLacks(pieces[1..], c);
    }
  }

  /** A string-pattern replace acts on the first piece equal to the token when no earlier piece holds its first character. */
  lemma ReplacePiece(pieces: seq<string>, i: nat, rep: string)
    requires i < |pieces| && |pieces[i]| > 0
    requires forall k :: 0 <= k < i ==> pieces[i][0] !in pieces[k]
    ensures ReplaceFirst(Concat(pieces), pieces[i], rep) == Concat(pieces[i := rep])
  {
    var after := pieces[i := rep];
    ConcatSplit(pieces, i);
    ConcatSplit(after, i);
    assert after[..i] == pieces[..i];
    assert after[i + 1..] == pieces[i + 1..];
    ConcatLacks(pieces[..i], pieces[i][0]);
    ReplaceFirstAt(Concat(pieces[..i]), pieces[i], Concat(pieces[i + 1..]), rep);
  }

  /** `s.replace(/tok/g, rep)` for a literal `tok`: every occurrence, scanning left to right. */
  function ReplaceAll(s: string, tok: string, rep: string): (r: string)
    requires |tok| > 0
    decreases |s|
  {
    if |s| < |tok| then s
    else if s[..|tok|] == tok then rep + ReplaceAll(s[|tok|..], tok, rep)
    else [s[0]] + ReplaceAll(s[1..], tok, rep)
  }

  /** Putting the first character back in front of a split of the rest. */
  lemma ConsSplit(s: string, i: nat, mid: string, x: string)
    requires 0 < i <= |s|
    ensures [s[0]] + (s[1..][..i - 1] + mid + x) == s[..i] + mid + x
  {
    assert [s[0]] + s[1..][..i - 1] == s[..i];
  }

  /** A text in which `tok` does not occur passes through a global replace unchanged. */
  lemma {:induction false} ReplaceAllAbsent(s: string, tok: string, rep: string)
    requires |tok| > 0 && IndexOf(s, tok).None?
    ensures ReplaceAll(s, tok, rep) == s
    decreases |s|
  {
    if |s| >= |tok| {
      ReplaceAllAbsent(s[1..], tok, rep);
      assert [s[0]] + s[1..] == s;
    }
  }

  /**
   * Replacing every occurrence is replacing the first one, at the index
   * `indexOf` finds, and then every occurrence in what follows it: the
   * text before the first occurrence is kept.
   */
  lemma {:induction false} ReplaceAllAtFirst(s: string, tok: string, rep: string, i: nat)
    requires |tok| > 0 && IndexOf(s, tok) == Some(i)
    ensures ReplaceAll(s, tok, rep) == s[..i] + rep + ReplaceAll(s[i + |tok|..], tok, rep)
    decreases |s|, 1
  {
    if i == 0 {
      ReplaceAllAtHead(s, tok, rep);
    } else {
      IndexOfPastHead(s, tok, i - 1);
      ReplaceAllPastHead(s, tok, rep, i);
    }
  }

  /** An occurrence at the head of `s` is replaced first. */
  lemma ReplaceAllAtHead(s: string, tok: string, rep: string)
    requires |tok| > 0 && IndexOf(s, tok) == Some(0)
    ensures ReplaceAll(s, tok, rep) == s[..0] + rep + ReplaceAll(s[0 + |tok|..], tok, rep)
  {
    assert |tok| <= |s| && s[..|tok|] == tok;
    assert s[..0] + rep == rep;
  }

  /** An occurrence found past the head of `s` is found one position earlier in `s[1..]`. */
  lemma IndexOfPastHead(s: string, tok: string, i: nat)
    requires |tok| > 0 && IndexOf(s, tok) == Some(i + 1)
    ensures |tok| <= |s| && s[..|tok|] != tok && IndexOf(s[1..], tok) == Some(i)
  {
  }

  /** When `tok` does not start `s`, the first replacement in `s[1..]` is the first one in `s`. */
  lemma {:induction false} ReplaceAllPastHead(s: string, tok: string, rep: string, i: nat)
    requires |tok| > 0 && |tok| <= |s| && s[..|tok|] != tok
    requires 0 < i && IndexOf(s[1..], tok) == Some(i - 1)
    ensures ReplaceAll(s, tok, rep) == s[..i] + rep + ReplaceAll(s[i + |tok|..], tok, rep)
    decreases |s|, 0
  {
    var t := s[1..];
    ReplaceAllAtFirst(t, tok, rep, i - 1);
    var x := ReplaceAll(s[i + |tok|..], tok, rep);
    assert t[i - 1 + |tok|..] == s[i + |tok|..];
    assert ReplaceAll(t, tok, rep) == t[..i - 1] + rep + x;
    assert ReplaceAll(s, tok, rep) == [s[0]] + (t[..i - 1] + rep + x);
    ConsSplit(s, i, rep, x);
  }

  /** A prefix holding no character that starts `tok` passes through a global replace untouched. */
  lemma {:induction false} ReplaceAllSkip(x: string, y: string, tok: string, rep: string)
    requires |tok| > 0
    requires forall k :: 0 <= k < |x| ==> x[k] != tok[0]
    ensures ReplaceAll(x + y, tok, rep) == x + ReplaceAll(y, tok, rep)
    decreases |x|
  {
    if x != [] {
      var s := x + y;
      assert s[0] == x[0];
      assert |s| >= |tok| ==> s[..|tok|] != tok by {
        if |s| >= |tok| {
          assert s[..|tok|][0] == s[0];
        }
      }
      assert ReplaceAll(s, tok, rep) == [x[0]] + ReplaceAll(s[1..], tok, rep) by {
        if |s| >= |tok| {
          assert ReplaceAll(s, tok, rep) == [s[0]] + ReplaceAll(s[1..], tok, rep);
        }
      }
      ReplaceAllSkip(x[1..], y, tok, rep);
      assert s[1..] == x[1..] + y;
      assert [x[0]] + x[1..] == x;
    } else {
      assert x + y == y;
    }
  }

  /** A prefix equal to `tok` becomes `rep`. */
  lemma ReplaceAllToken(y: string, tok: string, rep: string)
    requires |tok| > 0
    ensures ReplaceAll(tok + y, tok, rep) == rep + ReplaceAll(y, tok, rep)
  {
    assert (tok + y)[..|tok|] == tok;
    assert (tok + y)[|tok|..] == y;
  }

  /**
   * A global replace keeps the text before the first occurrence, at `i`,
   * puts `rep` in its place and goes on replacing in what follows.
   */
  lemma ReplaceAllAtOccurrence(s: string, tok: string, rep: string, i: nat)
    requires |tok| > 0 && OccursAt(s, tok, i)
    requires forall j :: 0 <= j < i ==> !OccursAt(s, tok, j)
    ensures ReplaceAll(s, tok, rep) == s[..i] + rep + ReplaceAll(s[i + |tok|..], tok, rep)
  {
    IndexOfFirst(s, tok, i);
    ReplaceAllAtFirst(s, tok, rep, i);
  }

  /** A global replace leaves a text without an occurrence as it is. */
  lemma ReplaceAllWithout(s: string, tok: string, rep: string)
    requires |tok| > 0 && forall j :: 0 <= j ==> !OccursAt(s, tok, j)
    ensures ReplaceAll(s, tok, rep) == s
  {
    IndexOfNone(s, tok);
    ReplaceAllAbsent(s, tok, rep);
  }

  /** When `tok` does not start `s`, a global replace keeps the first character and goes on with the rest. */
  lemma ReplaceAllStep(s: string, tok: string, rep: string)
    requires |tok| > 0 && s != [] && !OccursAt(s, tok, 0)
    ensures ReplaceAll(s, tok, rep) == [s[0]] + ReplaceAll(s[1..], tok, rep)
  {
    if |s| < |tok| {
      assert ReplaceAll(s[1..], tok, rep) == s[1..];
      assert [s[0]] + s[1..] == s;
    }
  }

  /**
   * A global replace whose replacement starts with a character that is not
   * in `w` creates no occurrence of `w` at the head: when the result starts
   * with `w`, the text already did.
   */
  lemma {:induction false} ReplaceAllKeepsHead(v: string, w: string, tok: string, rep: string)
    requires |tok| > 0 && rep != [] && rep[0] !in w
    requires OccursAt(ReplaceAll(v, tok, rep), w, 0)
    ensures OccursAt(v, w, 0)
    decreases |w|
  {
    if w != [] && |v| >= |tok| {
      var r := ReplaceAll(v, tok, rep);
      assert r[0] == r[..|w|][0] == w[0];
      assert w[0] != rep[0];
      assert v[..|tok|] != tok;
      var r1 := ReplaceAll(v[1..], tok, rep);
      assert r == [v[0]] + r1;
      assert r1[..|w| - 1] == r[1..|w|] == w[1..];
      ReplaceAllKeepsHead(v[1..], w[1..], tok, rep);
      assert v[..|w|] == [v[0]] + v[1..][..|w| - 1];
    }
  }

  /**
   * After a global replace of the rest of `s` behind its first character,
   * `w` can only start the result if it started `s`.
   */
  lemma ReplaceAllRestKeepsHead(s: string, w: string, tok: string, rep: string)
    requires s != [] && |tok| > 0 && rep != [] && rep[0] !in w
    ensures OccursAt([s[0]] + ReplaceAll(s[1..], tok, rep), w, 0) ==> OccursAt(s, w, 0)
  {
    var t := [s[0]] + ReplaceAll(s[1..], tok, rep);
    if w != [] && OccursAt(t, w, 0) {
      assert t[1..] == ReplaceAll(s[1..], tok, rep);
      assert t[1..][..|w| - 1] == t[..|w|][1..] == w[1..];
      assert rep[0] !in w[1..];
      ReplaceAllKeepsHead(s[1..], w[1..], tok, rep);
      assert s[..|w|] == [s[0]] + s[1..][..|w| - 1];
    }
  }

  /** The character for a decimal digit. */
  function DigitChar(d: nat): (c: char)
    requires d < 10
    ensures '0' <= c <= '9'
  {
    (('0' as int) + d) as char
  }

  /** `n + ""`: the decimal rendering of a natural number, without leading zeros. */
  function NatToString(n: nat): (r: string)
    ensures r != []
    ensures forall k :: 0 <= k < |r| ==> '0' <= r[k] <= '9'
    ensures r[0] == '0' ==> n == 0
  {
    if n < 10 then [DigitChar(n)] else NatToString(n / 10) + [DigitChar(n % 10)]
  }

  /** The number a string of decimal digits denotes. */
  function DigitsValue(s: string): nat
    requires forall k :: 0 <= k < |s| ==> '0' <= s[k] <= '9'
  {
    if s == [] then 0
    else DigitsValue(s[..|s| - 1]) * 10 + (s[|s| - 1] as int - '0' as int)
  }

  /** Reading back a rendered number gives the number. */
  lemma {:induction false} NatToStringValue(n: nat)
    ensures DigitsValue(NatToString(n)) == n
  {
    if n >= 10 {
      NatToStringValue(n / 10);
      var r := NatToString(n);
      assert r[..|r| - 1] == NatToString(n / 10);
    }
  }
}
