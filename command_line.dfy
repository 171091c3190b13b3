/**
 * The command-line tokeniser of the scan manager: ParseCommandLine splits a
 * NUL-terminated command line into argv in place, with a counting pass (no
 * argv) and a writing pass, and UnEscapeQuotes deletes, in place, the
 * backslash of every backslash-quote pair of a NUL-terminated string.
 *
 * Character pointers are indices into the buffer; a null argv is `null`, and a
 * null argv entry is `None`.
 */
module CommandLine {
  import opened Common

  const NUL: char := '\0'

  /** isspace in the "C" locale: space, tab, newline, vertical tab, form feed, carriage return. */
  predicate IsSpace(c: char) {
    c == ' ' || c == '\t' || c == '\n' || c == '\U{000B}' || c == '\U{000C}' || c == '\r'
  }

  /** A run of characters holding no terminator. */
  predicate NoNul(s: string) {
    forall i :: 0 <= i < |s| ==> s[i] != NUL
  }

  /** The C string `w` sits at offset p of the buffer: its characters, then a NUL. */
  predicate HoldsCString(buf: seq<char>, p: nat, w: string) {
    p + |w| < |buf| && buf[p..p + |w|] == w && buf[p + |w|] == NUL && NoNul(w)
  }

  // ---------------------------------------------------------------------------
  // UnEscapeQuotes

  /** The string with every backslash that immediately precedes a double quote removed. */
  function Unescaped(s: string): (r: string)
    ensures |r| <= |s| && (|s| > 0 ==> |r| > 0)
  {
    if |s| == 0 then []
    else if |s| >= 2 && s[0] == '\\' && s[1] == '"' then Unescaped(s[1..])
    else [s[0]] + Unescaped(s[1..])
  }

  /** The number of backslash-quote pairs in s. */
  function EscapedQuotes(s: string): nat {
    if |s| < 2 then 0
    else (if s[0] == '\\' && s[1] == '"' then 1 else 0) + EscapedQuotes(s[1..])
  }

  /** Unescaping shortens the string by one character per backslash-quote pair. */
  lemma {:induction false} UnescapedLength(s: string)
    ensures |Unescaped(s)| == |s| - EscapedQuotes(s)
  {
    if |s| > 0 {
      UnescapedLength(s[1..]);
    }
  }

  /** Only backslashes are removed: every other character keeps its number of occurrences. */
  lemma {:induction false} UnescapedKeepsOthers(s: string, c: char)
    requires c != '\\'
    ensures multiset(Unescaped(s))[c] == multiset(s)[c]
  {
    if |s| > 0 {
      UnescapedKeepsOthers(s[1..], c);
      assert s == [s[0]] + s[1..];
    }
  }

  /** A string without backslash-quote pairs is left as it is. */
  lemma {:induction false} UnescapedIdentity(s: string)
    requires EscapedQuotes(s) == 0
    ensures Unescaped(s) == s
  {
    if |s| > 0 {
      UnescapedIdentity(s[1..]);
      assert s == [s[0]] + s[1..];
    }
  }

  /** Unescaping never introduces a terminator. */
  lemma {:induction false} UnescapedNoNul(s: string)
    requires NoNul(s)
    ensures NoNul(Unescaped(s))
  {
    if |s| > 0 {
      UnescapedNoNul(s[1..]);
    }
  }

  /** The last character of a non-empty string is never removed. */
  lemma {:induction false} UnescapedLast(s: string)
    requires |s| > 0
    ensures |Unescaped(s)| > 0 && Unescaped(s)[|Unescaped(s)| - 1] == s[|s| - 1]
  {
    if |s| >= 2 {
      UnescapedLast(s[1..]);
    }
  }

  /**
   * Unescaping a string extended by one character: a quote after a final
   * backslash replaces that backslash, anything else is appended.
   */
  lemma {:induction false} UnescapedSnoc(s: string, c: char)
    ensures Unescaped(s + [c]) ==
              if |s| > 0 && s[|s| - 1] == '\\' && c == '"' then Unescaped(s)[..|Unescaped(s)| - 1] + [c]
              else Unescaped(s) + [c]
  {
    var t := s + [c];
    if |s| == 0 {
      assert t == [c];
    } else if |s| == 1 {
      assert t[1..] == [c];
    } else {
      assert t[1..] == s[1..] + [c];
      UnescapedSnoc(s[1..], c);
      UnescapedLast(s[1..]);
    }
  }

  /** The string r followed by NULs up to length len. */
  function Padded(r: string, len: nat): (p: string)
    requires |r| <= len
    ensures |p| == len && p[..|r|] == r && forall i :: |r| <= i < len ==> p[i] == NUL
  {
    r + seq(len - |r|, _ => NUL)
  }

  /**
   * The buffer b with the characters from last + 1 up to the terminator at t
   * moved one place left and a NUL written in the place they leave.
   */
  function Shifted(b: seq<char>, last: nat, t: nat): (r: seq<char>)
    requires last < t < |b|
    ensures |r| == |b| && r[t - 1] == NUL
    ensures forall i :: 0 <= i < last ==> r[i] == b[i]
    ensures forall i :: last <= i < t - 1 ==> r[i] == b[i + 1]
    ensures forall i :: t <= i < |b| ==> r[i] == b[i]
  {
    b[..last] + b[last + 1..t] + [NUL] + b[t..]
  }

  /**
   * The inner loop of UnEscapeQuotes: the characters from last + 1 up to the
   * terminator at t move one place left, and the old last character becomes
   * the new terminator.
   */
  method ShiftLeft(buf: array<char>, last: nat, ghost t: nat)
    requires last < t < buf.Length && buf[t] == NUL && NoNul(buf[last + 1..t])
    modifies buf
    ensures buf[..] == Shifted(old(buf[..]), last, t)
  {
    var cCurr := last + 1;
    var cLast := last;
    assert forall i :: cCurr <= i < t ==> buf[i] == buf[last + 1..t][i - last - 1];
    while buf[cCurr] != NUL
      invariant last + 1 <= cCurr <= t && cLast == cCurr - 1
      invariant forall i :: last <= i < cLast ==> buf[i] == old(buf[i + 1])
      invariant forall i :: cLast <= i < buf.Length ==> buf[i] == old(buf[i])
      invariant forall i :: 0 <= i < last ==> buf[i] == old(buf[i])
      invariant forall i :: cCurr <= i < t ==> buf[i] != NUL
      decreases t - cCurr
    {
      buf[cLast] := buf[cCurr];
      cLast := cCurr;
      cCurr := cCurr + 1;
    }
    buf[cLast] := NUL;
  }

  /**
   * The state of UnEscapeQuotes' scan over the original string s at offset a
   * with terminator z: the first j characters of s have been handled into the
   * unescaped prefix before `arg`, the rest of s follows up to the current
   * terminator t, and only NULs lie from t to z. After a removal at the final
   * quote, `arg` has stepped past the new terminator (`over`).
   */
  ghost predicate Progress(b: seq<char>, a: nat, z: nat, s: string, j: nat, arg: nat, t: nat, over: bool) {
    && a <= arg && a <= t <= z < |b| && j <= |s| && z - a == |s|
    && (!over ==> && arg <= t && arg - a == |Unescaped(s[..j])| && t - arg == |s| - j
                  && b[a..arg] == Unescaped(s[..j]) && b[arg..t] == s[j..])
    && (over ==> j == |s| && arg == t + 1 && t - a == |Unescaped(s)| && b[a..t] == Unescaped(s))
    && (forall i :: t <= i <= z ==> b[i] == NUL)
  }

  /** A character that does not complete a backslash-quote pair is kept. */
  lemma ProgressKeep(b: seq<char>, a: nat, z: nat, s: string, j: nat, arg: nat, t: nat)
    requires Progress(b, a, z, s, j, arg, t, false) && arg < t
    requires !(b[arg] == '"' && arg > a && b[arg - 1] == '\\')
    ensures Progress(b, a, z, s, j + 1, arg + 1, t, false)
  {
    KeptChar(b, a, z, s, j, arg, t);
    assert b[a..arg + 1] == b[a..arg] + [b[arg]];
    assert b[arg + 1..t] == b[arg..t][1..];
    assert s[j..][1..] == s[j + 1..];
  }

  /** The character ProgressKeep keeps is the next one of s, and unescaping s up to it appends it. */
  lemma KeptChar(b: seq<char>, a: nat, z: nat, s: string, j: nat, arg: nat, t: nat)
    requires Progress(b, a, z, s, j, arg, t, false) && arg < t
    requires !(b[arg] == '"' && arg > a && b[arg - 1] == '\\')
    ensures j < |s| && b[arg] == s[j] && Unescaped(s[..j + 1]) == Unescaped(s[..j]) + [s[j]]
  {
    assert b[arg] == b[arg..t][0] == s[j];
    assert s[..j + 1] == s[..j] + [s[j]];
    UnescapedSnoc(s[..j], s[j]);
    if j > 0 {
      UnescapedLast(s[..j]);
      assert b[arg - 1] == b[a..arg][arg - 1 - a] == s[j - 1];
    }
  }

  /** Before the shifted part, the shift leaves the characters in front of the quote and moves the quote one place left. */
  lemma ShiftedPrefix(b: seq<char>, a: nat, arg: nat, t: nat, v: string)
    requires a < arg < t < |b| && b[a..arg] == v && b[arg] == '"'
    ensures Shifted(b, arg - 1, t)[a..arg] == v[..|v| - 1] + ['"']
  {
    var b' := Shifted(b, arg - 1, t);
    assert forall i :: a <= i < arg - 1 ==> b[i] == v[i - a];
    assert forall i :: a <= i < arg ==> b'[i] == (v[..|v| - 1] + ['"'])[i - a];
  }

  /** After the quote, the shift moves the rest of the string one place left. */
  lemma ShiftedRest(b: seq<char>, arg: nat, t: nat, w: string)
    requires 0 < arg < t < |b| && b[arg..t] == w
    ensures Shifted(b, arg - 1, t)[arg..t - 1] == w[1..]
  {
    var b' := Shifted(b, arg - 1, t);
    assert forall i :: arg <= i < t ==> b[i] == w[i - arg];
    assert forall i :: arg <= i < t - 1 ==> b'[i] == w[1..][i - arg];
  }

  /** The shift at a backslash-quote pair leaves the unescaped prefix one character longer, ending in the quote. */
  lemma ShiftedUnescaped(b: seq<char>, a: nat, z: nat, s: string, j: nat, arg: nat, t: nat)
    requires Progress(b, a, z, s, j, arg, t, false) && arg < t
    requires b[arg] == '"' && arg > a && b[arg - 1] == '\\'
    ensures Shifted(b, arg - 1, t)[a..arg] == Unescaped(s[..j + 1])
  {
    assert b[arg] == b[arg..t][0] == s[j];
    var v := Unescaped(s[..j]);
    assert b[arg - 1] == b[a..arg][arg - 1 - a];
    UnescapedLast(s[..j]);
    assert s[..j + 1] == s[..j] + [s[j]];
    UnescapedSnoc(s[..j], s[j]);
    ShiftedPrefix(b, a, arg, t, v);
  }

  /** The shift at a backslash-quote pair: the backslash is gone, the quote ends the unescaped prefix. */
  lemma ProgressShift(b: seq<char>, b': seq<char>, a: nat, z: nat, s: string, j: nat, arg: nat, t: nat)
    requires Progress(b, a, z, s, j, arg, t, false) && arg < t
    requires b[arg] == '"' && arg > a && b[arg - 1] == '\\'
    requires b' == Shifted(b, arg - 1, t)
    ensures Progress(b', a, z, s, j + 1, arg, t - 1, false)
  {
    ShiftedUnescaped(b, a, z, s, j, arg, t);
    ShiftedRest(b, arg, t, s[j..]);
    assert s[j..][1..] == s[j + 1..];
  }

  /**
   * A quote after a backslash: the shift drops the backslash. The character
   * after the quote is passed over unexamined; it cannot complete a pair.
   */
  lemma ProgressRemove(b: seq<char>, b': seq<char>, a: nat, z: nat, s: string, j: nat, arg: nat, t: nat)
    requires Progress(b, a, z, s, j, arg, t, false) && arg < t
    requires b[arg] == '"' && arg > a && b[arg - 1] == '\\'
    requires b' == Shifted(b, arg - 1, t)
    ensures Progress(b', a, z, s, if j + 1 < |s| then j + 2 else j + 1, arg + 1, t - 1, j + 1 == |s|)
  {
    ProgressShift(b, b', a, z, s, j, arg, t);
    if j + 1 < |s| {
      ProgressKeep(b', a, z, s, j + 1, arg, t - 1);
    } else {
      assert s[..j + 1] == s;
    }
  }

  /** At the terminator the scan is complete: the string is unescaped and padded with NULs. */
  lemma ProgressDone(b: seq<char>, a: nat, z: nat, s: string, j: nat, arg: nat, t: nat, over: bool)
    requires Progress(b, a, z, s, j, arg, t, over) && arg <= z && b[arg] == NUL && NoNul(s)
    ensures b[a..z] == Padded(Unescaped(s), z - a)
  {
    if !over {
      assert forall i :: arg <= i < t ==> b[i] == s[j + i - arg];
      assert s[..j] == s;
    }
  }

  /**
   * One pass of UnEscapeQuotes' loop at `arg`, `last` one place behind: a
   * quote after a backslash shifts the rest of the string left over the
   * backslash; any other character is kept.
   */
  method ExamineChar(buf: array<char>, a: nat, arg: nat, last: int,
                     ghost z: nat, ghost s: string, ghost j: nat, ghost t: nat, ghost over: bool)
    returns (ghost j': nat, ghost t': nat, ghost over': bool)
    requires arg <= z < buf.Length && Progress(buf[..], a, z, s, j, arg, t, over) && buf[arg] != NUL && NoNul(s)
    requires last == (if arg == a then -1 else arg - 1)
    modifies buf
    ensures arg < z && Progress(buf[..], a, z, s, j', arg + 1, t', over')
    ensures forall i :: 0 <= i < buf.Length && !(a <= i < z) ==> buf[i] == old(buf[i])
  {
    assert buf[..][arg] != NUL;
    assert !over && arg < t;
    if buf[arg] == '"' && last != -1 && buf[last] == '\\' {
      ghost var before := buf[..];
      assert NoNul(buf[last + 1..t]) by {
        assert forall i :: last + 1 <= i < t ==> buf[i] == s[j + i - arg];
      }
      ShiftLeft(buf, last, t);
      ProgressRemove(before, buf[..], a, z, s, j, arg, t);
      j', t', over' := if j + 1 < |s| then j + 2 else j + 1, t - 1, j + 1 == |s|;
    } else {
      ProgressKeep(buf[..], a, z, s, j, arg, t);
      j', t', over' := j + 1, t, false;
    }
  }

  /**
   * UnEscapeQuotes(arg) on the string at offset a whose terminator is at z: the
   * string becomes its unescaped form, the freed places up to z hold NULs, and
   * nothing else in the buffer changes.
   */
  method UnEscapeQuotes(buf: array<char>, a: nat, ghost z: nat)
    requires a <= z < buf.Length && buf[z] == NUL && NoNul(buf[a..z])
    modifies buf
    ensures buf[a..z] == Padded(Unescaped(old(buf[a..z])), z - a)
    ensures forall i :: 0 <= i < buf.Length && !(a <= i < z) ==> buf[i] == old(buf[i])
  {
    ghost var s := buf[a..z];
    var arg := a;
    var last: int := -1;
    ghost var j: nat := 0;
    ghost var t: nat := z;
    ghost var over := false;
    while buf[arg] != NUL
      invariant arg <= z && Progress(buf[..], a, z, s, j, arg, t, over)
      invariant last == (if arg == a then -1 else arg - 1)
      invariant forall i :: 0 <= i < buf.Length && !(a <= i < z) ==> buf[i] == old(buf[i])
      decreases z - arg
    {
      j, t, over := ExamineChar(buf, a, arg, last, z, s, j, t, over);
      last := arg;
      arg := arg + 1;
    }
    ProgressDone(buf[..], a, z, s, j, arg, t, over);
  }

  // ---------------------------------------------------------------------------
  // The tokens of a command line

  /** The first position from i on that does not hold whitespace (|s| stands for the terminator). */
  function SkipSpace(s: string, i: nat): (r: nat)
    requires i <= |s|
    ensures i <= r <= |s| && (r < |s| ==> !IsSpace(s[r]))
    ensures forall k :: i <= k < r ==> IsSpace(s[k])
    decreases |s| - i
  {
    if i < |s| && IsSpace(s[i]) then SkipSpace(s, i + 1) else i
  }

  /** The first position from i on that holds whitespace or the terminator. */
  function WordEnd(s: string, i: nat): (r: nat)
    requires i <= |s|
    ensures i <= r <= |s| && (r < |s| ==> IsSpace(s[r]))
    ensures forall k :: i <= k < r ==> !IsSpace(s[k])
    decreases |s| - i
  {
    if i == |s| || IsSpace(s[i]) then i else WordEnd(s, i + 1)
  }

  /**
   * The quote at e closes a quoted token that starts at `start`: it is the
   * token's first character, or it does not follow a backslash.
   */
  predicate Closes(s: string, start: nat, e: nat)
    requires start <= e < |s|
  {
    s[e] == '"' && (e == start || s[e - 1] != '\\')
  }

  /** The first position from i on that closes the quoted token at `start`, or the terminator. */
  function QuoteEnd(s: string, start: nat, i: nat): (r: nat)
    requires start <= i <= |s|
    ensures i <= r <= |s| && (r < |s| ==> Closes(s, start, r))
    ensures forall k :: i <= k < r ==> !Closes(s, start, k)
    decreases |s| - i
  {
    if i == |s| || Closes(s, start, i) then i else QuoteEnd(s, start, i + 1)
  }

  /**
   * One round of ParseCommandLine's outer loop, begun at `at`: whether the
   * argument was quoted, where its token starts (None when no token is
   * counted), the position that ends it, and where the next round begins.
   */
  datatype Step = Step(at: nat, quoted: bool, token: Option<nat>, end: nat, next: nat)

  /** The round of the outer loop that begins at position i of the command line. */
  function StepAt(s: string, i: nat): (st: Step)
    requires i < |s|
    ensures st.at == i <= st.end <= |s|
    ensures st.next == (if st.end < |s| then st.end + 1 else |s|)
    ensures st.token.Some? ==> i <= st.token.value <= st.end && st.token.value < |s|
    ensures st.token.None? ==> st.end == |s|
  {
    var p := SkipSpace(s, i);
    if p < |s| && s[p] == '"' then
      var e := QuoteEnd(s, p + 1, p + 1);
      Step(i, true, if p + 1 < |s| then Some(p + 1) else None, e, if e < |s| then e + 1 else |s|)
    else
      var e := WordEnd(s, p);
      Step(i, false, if p < |s| then Some(p) else None, e, if e < |s| then e + 1 else |s|)
  }

  /** An unquoted token: whitespace from i, then a run of non-space characters not starting with a quote. */
  predicate PlainToken(s: string, i: nat, t: nat, e: nat)
    requires i <= t <= e <= |s|
  {
    && (forall k :: i <= k < t ==> IsSpace(s[k])) && t < e && s[t] != '"'
    && (forall k :: t <= k < e ==> !IsSpace(s[k]))
    && (e < |s| ==> IsSpace(s[e]))
  }

  /** A quoted token: whitespace from i, a quote, then everything up to the closing quote or the end. */
  predicate QuotedToken(s: string, i: nat, t: nat, e: nat)
    requires i <= t <= e <= |s|
  {
    && i < t && (forall k :: i <= k < t - 1 ==> IsSpace(s[k])) && s[t - 1] == '"'
    && (forall k :: t <= k < e ==> !Closes(s, t, k))
    && (e < |s| ==> Closes(s, t, e))
  }

  /** What a round finds: a plain or a quoted token, or no token when only whitespace (and perhaps one final quote) is left. */
  lemma StepMeaning(s: string, i: nat)
    requires i < |s|
    ensures var st := StepAt(s, i);
            && (st.token.Some? && !st.quoted ==> PlainToken(s, i, st.token.value, st.end))
            && (st.token.Some? && st.quoted ==> QuotedToken(s, i, st.token.value, st.end))
            && (st.token.None? <==>
                 (forall k :: i <= k < |s| ==> IsSpace(s[k])) ||
                 (s[|s| - 1] == '"' && forall k :: i <= k < |s| - 1 ==> IsSpace(s[k])))
  {
    var p := SkipSpace(s, i);
    if p < |s| && s[p] == '"' && p + 1 == |s| {
      assert forall k :: i <= k < |s| - 1 ==> IsSpace(s[k]);
    }
  }

  /**
   * Rounds in order: each token lies in its own round, and every round ends
   * before the next one begins.
   */
  predicate Ordered(steps: seq<Step>) {
    && (forall q :: 0 <= q < |steps| ==> steps[q].at <= steps[q].end)
    && (forall q :: 0 <= q < |steps| && steps[q].token.Some? ==>
          steps[q].at <= steps[q].token.value <= steps[q].end)
    && Apart(steps)
  }

  /** Every round ends before the next one begins. */
  predicate Apart(steps: seq<Step>)
    decreases |steps|
  {
    |steps| <= 1 || (steps[0].end < steps[1].at && Apart(steps[1..]))
  }

  /** Round q ends before round q + 1 begins. */
  lemma {:induction false} ApartNext(steps: seq<Step>, q: nat)
    requires Apart(steps) && q + 1 < |steps|
    ensures steps[q].end < steps[q + 1].at
    decreases q
  {
    if q > 0 {
      ApartNext(steps[1..], q - 1);
    }
  }

  /** In ordered rounds, every round ends before any later one begins. */
  lemma {:induction false} ApartPair(steps: seq<Step>, q: nat, q': nat)
    requires Ordered(steps) && q < q' < |steps|
    ensures steps[q].end < steps[q'].at
    decreases q'
  {
    if q < q' - 1 {
      ApartPair(steps, q, q' - 1);
    }
    ApartNext(steps, q' - 1);
  }

  /** The rounds of the outer loop from position i to the end of the command line. */
  function Steps(s: string, i: nat): (r: seq<Step>)
    requires i <= |s|
    decreases |s| - i
  {
    if i == |s| then []
    else
      var st := StepAt(s, i);
      [st] + Steps(s, st.next)
  }

  /**
   * The rounds from position i: there are none exactly at the terminator, the
   * first begins at i, all begin inside the command line, and they are in order.
   */
  lemma {:induction false} StepsShape(s: string, i: nat)
    requires i <= |s|
    ensures var r := Steps(s, i);
            && (|r| == 0) == (i == |s|) && (|r| > 0 ==> r[0].at == i)
            && (forall q :: 0 <= q < |r| ==> i <= r[q].at < |s| && r[q].end <= |s|)
            && Ordered(r)
    decreases |s| - i
  {
    if i < |s| {
      var st := StepAt(s, i);
      var rest := Steps(s, st.next);
      StepsShape(s, st.next);
      OrderedCons(st, rest);
      assert forall q :: 0 < q < |Steps(s, i)| ==> Steps(s, i)[q] == rest[q - 1];
    }
  }

  /** A round that ends before all later ones begin extends an ordered sequence of rounds. */
  lemma OrderedCons(st: Step, rest: seq<Step>)
    requires Ordered(rest) && st.at <= st.end
    requires st.token.Some? ==> st.at <= st.token.value <= st.end
    requires |rest| > 0 ==> st.end < rest[0].at
    ensures Ordered([st] + rest)
  {
    var r := [st] + rest;
    assert forall q :: 0 < q < |r| ==> r[q] == rest[q - 1];
    assert r[1..] == rest;
  }

  /** Each round of Steps is the round that begins where it begins, and the next one begins where it leaves off. */
  lemma {:induction false} StepOf(s: string, i: nat, q: nat)
    requires i <= |s| && q < |Steps(s, i)|
    ensures i <= Steps(s, i)[q].at < |s|
    ensures Steps(s, i)[q] == StepAt(s, Steps(s, i)[q].at)
    ensures q + 1 < |Steps(s, i)| ==> Steps(s, i)[q + 1].at == Steps(s, i)[q].next
    decreases q
  {
    if q > 0 {
      StepOf(s, StepAt(s, i).next, q - 1);
    }
  }

  /** The token start positions of a sequence of rounds, in order. */
  function Starts(steps: seq<Step>): (r: seq<nat>)
    ensures |r| <= |steps|
  {
    if |steps| == 0 then []
    else
      var last := steps[|steps| - 1];
      Starts(steps[..|steps| - 1]) + (if last.token.Some? then [last.token.value] else [])
  }

  /** The start of every token of the command line s, in order: what argv points to. */
  function Tokens(s: string): seq<nat> {
    Starts(Steps(s, 0))
  }

  // ---------------------------------------------------------------------------
  // The command line after the writing pass

  /** Unescaped applied n times. */
  function Repeat(n: nat, w: string): (r: string)
    ensures |r| <= |w|
  {
    if n == 0 then w else Unescaped(Repeat(n - 1, w))
  }

  lemma {:induction false} RepeatNoNul(n: nat, w: string)
    requires NoNul(w)
    ensures NoNul(Repeat(n, w))
  {
    if n > 0 {
      RepeatNoNul(n - 1, w);
      UnescapedNoNul(Repeat(n - 1, w));
    }
  }

  /** The round among the first m whose token covers position k, if any. */
  function Owner(steps: seq<Step>, m: nat, k: nat): (r: Option<nat>)
    requires m <= |steps|
    ensures r.Some? ==> r.value < m && steps[r.value].token.Some?
    ensures r.Some? ==> steps[r.value].token.value <= k < steps[r.value].end
  {
    if m == 0 then None
    else if steps[m - 1].token.Some? && steps[m - 1].token.value <= k < steps[m - 1].end then Some(m - 1)
    else Owner(steps, m - 1, k)
  }

  /** Position k ends one of the first m rounds. */
  predicate Delim(steps: seq<Step>, m: nat, k: nat)
    requires m <= |steps|
  {
    m > 0 && (steps[m - 1].end == k || Delim(steps, m - 1, k))
  }

  /** Rounds that lie within the command line s, in order. */
  predicate Fits(steps: seq<Step>, s: string) {
    Ordered(steps) && forall q :: 0 <= q < |steps| ==> steps[q].end <= |s|
  }

  /**
   * Position k of the buffer b once the first m of the rounds `steps` over its
   * command line s are done: inside the token of round q the token unescaped
   * reps[q] times and padded with NULs, a NUL where a round ended, and b's own
   * character everywhere else.
   */
  ghost function ExpectedAt(b: seq<char>, s: string, steps: seq<Step>, m: nat, reps: seq<nat>, k: nat): char
    requires k < |b| && Fits(steps, s) && m <= |steps| && m <= |reps|
  {
    match Owner(steps, m, k)
    case Some(q) =>
      var t := steps[q].token.value;
      Padded(Repeat(reps[q], s[t..steps[q].end]), steps[q].end - t)[k - t]
    case None => if Delim(steps, m, k) then NUL else b[k]
  }

  /** The buffer c is b after the first m rounds, the token of round q unescaped reps[q] times. */
  ghost predicate Shows(c: seq<char>, b: seq<char>, s: string, steps: seq<Step>, m: nat, reps: seq<nat>) {
    var shaped := Fits(steps, s) && m <= |steps| && m <= |reps| && |c| == |b|;
    shaped && forall k :: 0 <= k < |c| ==> c[k] == ExpectedAt(b, s, steps, m, reps, k)
  }

  /** The buffer b holds the NUL-terminated command line s. */
  ghost predicate HoldsLine(b: seq<char>, s: string) {
    |s| < |b| && b[..|s|] == s && b[|s|] == NUL && NoNul(s)
  }

  /** From the start of round m on, the first m rounds have changed nothing. */
  lemma {:induction false} Untouched(steps: seq<Step>, m: nat, k: nat)
    requires Ordered(steps) && m < |steps| && steps[m].at <= k
    ensures Owner(steps, m, k).None? && !Delim(steps, m, k)
  {
    if m > 0 {
      ApartNext(steps, m - 1);
      Untouched(steps, m - 1, k);
    }
  }

  /** Inside the token of round q < m, q is the owner. */
  lemma {:induction false} OwnerIs(steps: seq<Step>, m: nat, q: nat, k: nat)
    requires Ordered(steps) && q < m <= |steps|
    requires steps[q].token.Some? && steps[q].token.value <= k < steps[q].end
    ensures Owner(steps, m, k) == Some(q)
  {
    if m - 1 != q {
      ApartPair(steps, q, m - 1);
      OwnerIs(steps, m - 1, q, k);
    }
  }

  /** Every one of the first m rounds has left a NUL where it ended. */
  lemma {:induction false} DelimHas(steps: seq<Step>, m: nat, q: nat)
    requires q < m <= |steps|
    ensures Delim(steps, m, steps[q].end)
  {
    if m - 1 != q {
      DelimHas(steps, m - 1, q);
    }
  }

  /** No token covers the position where a round ended. */
  lemma {:induction false} NoOwnerAtEnd(steps: seq<Step>, m: nat, q: nat)
    requires Ordered(steps) && q < |steps| && m <= |steps|
    ensures Owner(steps, m, steps[q].end).None?
  {
    if m > 0 {
      NoOwnerAtEnd(steps, m - 1, q);
      if m - 1 < q {
        ApartPair(steps, m - 1, q);
      } else if m - 1 > q {
        ApartPair(steps, q, m - 1);
      }
    }
  }

  /** A buffer shown as the picture holds the picture's character at every position. */
  lemma ShowsAt(c: seq<char>, b: seq<char>, s: string, steps: seq<Step>, m: nat, reps: seq<nat>, k: nat)
    requires Shows(c, b, s, steps, m, reps) && k < |c|
    ensures k < |b| && c[k] == ExpectedAt(b, s, steps, m, reps, k)
  {
  }

  /** Inside the token of round q < m, the picture holds that token unescaped reps[q] times and padded. */
  lemma ExpectedInToken(b: seq<char>, s: string, steps: seq<Step>, m: nat, reps: seq<nat>, q: nat, k: nat)
    requires Fits(steps, s) && q < m <= |steps| && m <= |reps| && k < |b|
    requires steps[q].token.Some? && steps[q].token.value <= k < steps[q].end
    ensures var t := steps[q].token.value;
            var e := steps[q].end;
            ExpectedAt(b, s, steps, m, reps, k) == Padded(Repeat(reps[q], s[t..e]), e - t)[k - t]
  {
    OwnerIs(steps, m, q, k);
  }

  /** Where one of the first m rounds ended, the picture holds a NUL. */
  lemma ExpectedAtEnd(b: seq<char>, s: string, steps: seq<Step>, m: nat, reps: seq<nat>, q: nat)
    requires Fits(steps, s) && q < m <= |steps| && m <= |reps| && steps[q].end < |b|
    ensures ExpectedAt(b, s, steps, m, reps, steps[q].end) == NUL
  {
    NoOwnerAtEnd(steps, m, q);
    DelimHas(steps, m, q);
  }

  /**
   * Position k after round m has ended: a NUL at the round's end, its token
   * as it stands in the command line, and the picture after m rounds elsewhere.
   */
  lemma DelimitAt(b: seq<char>, s: string, steps: seq<Step>, m: nat, reps: seq<nat>, k: nat)
    requires HoldsLine(b, s) && Fits(steps, s) && m < |steps| && |reps| == m && k < |b|
    ensures ExpectedAt(b, s, steps, m + 1, reps + [0], k) ==
              if k == steps[m].end then NUL else ExpectedAt(b, s, steps, m, reps, k)
  {
    var st := steps[m];
    var reps' := reps + [0];
    if st.token.Some? && st.token.value <= k < st.end {
      Untouched(steps, m, k);
      var t := st.token.value;
      var x := s[t..st.end];
      assert Padded(x, st.end - t) == x;
      assert x[k - t] == s[k] == b[..|s|][k] == b[k];
    } else if k == st.end {
      Untouched(steps, m, k);
    } else {
      match Owner(steps, m, k)
      case Some(q) => assert reps'[q] == reps[q];
      case None =>
    }
  }

  /**
   * Ending round m: the NUL written at its end (none when it ended at the
   * terminator) extends the picture to m + 1 rounds, its token not yet unescaped.
   */
  lemma DelimitStep(b: seq<char>, s: string, steps: seq<Step>, m: nat, reps: seq<nat>, c: seq<char>, c': seq<char>)
    requires HoldsLine(b, s) && m < |steps| && |reps| == m
    requires Shows(c, b, s, steps, m, reps)
    requires var e := steps[m].end; c' == if e < |s| then c[e := NUL] else c
    ensures Shows(c', b, s, steps, m + 1, reps + [0])
  {
    forall k | 0 <= k < |c'|
      ensures c'[k] == ExpectedAt(b, s, steps, m + 1, reps + [0], k)
    {
      DelimitAt(b, s, steps, m, reps, k);
      ShowsAt(c, b, s, steps, m, reps, k);
      if k == steps[m].end == |s| {
        Untouched(steps, m, k);
      }
    }
  }

  /**
   * UnEscapeQuotes on the token of round q < m: where the picture held the
   * token unescaped r times, it now holds it unescaped r + 1 times.
   */
  lemma UnescapeStep(b: seq<char>, s: string, steps: seq<Step>, m: nat, reps: seq<nat>, q: nat, c: seq<char>, c': seq<char>, w: string, t: nat)
    requires Shows(c, b, s, steps, m, reps) && q < m
    requires steps[q].token == Some(t) && w == Repeat(reps[q], s[t..steps[q].end])
    requires t + |w| < |c| == |c'| && c'[t..t + |w|] == Padded(Unescaped(c[t..t + |w|]), |w|)
    requires forall k :: 0 <= k < |c| && !(t <= k < t + |w|) ==> c'[k] == c[k]
    requires c[t..t + |w|] == w
    ensures Shows(c', b, s, steps, m, reps[q := reps[q] + 1])
  {
    var z := t + |w|;
    forall k | 0 <= k < |c'|
      ensures c'[k] == ExpectedAt(b, s, steps, m, reps[q := reps[q] + 1], k)
    {
      if t <= k < z {
        assert c'[k] == c'[t..z][k - t];
      }
      ShowsAt(c, b, s, steps, m, reps, k);
      UnescapeAt(b, s, steps, m, reps, q, c, c', w, t, k);
    }
  }

  /** UnescapeStep at one position k of the buffer. */
  lemma UnescapeAt(b: seq<char>, s: string, steps: seq<Step>, m: nat, reps: seq<nat>, q: nat, c: seq<char>, c': seq<char>, w: string, t: nat, k: nat)
    requires Fits(steps, s) && q < m <= |steps| && m <= |reps| && |c| == |b| == |c'| && k < |c|
    requires steps[q].token == Some(t) && w == Repeat(reps[q], s[t..steps[q].end])
    requires c[k] == ExpectedAt(b, s, steps, m, reps, k)
    requires t <= k < t + |w| ==> c'[k] == Padded(Unescaped(w), |w|)[k - t]
    requires !(t <= k < t + |w|) ==> c'[k] == c[k]
    ensures c'[k] == ExpectedAt(b, s, steps, m, reps[q := reps[q] + 1], k)
  {
    var e := steps[q].end;
    var reps' := reps[q := reps[q] + 1];
    var u := Unescaped(w);
    assert Repeat(reps'[q], s[t..e]) == u;
    if t <= k < e {
      ExpectedInToken(b, s, steps, m, reps, q, k);
      ExpectedInToken(b, s, steps, m, reps', q, k);
      if k >= t + |w| {
        assert c'[k] == c[k] == Padded(w, e - t)[k - t] == NUL;
      }
    } else {
      match Owner(steps, m, k)
      case Some(q') => assert reps'[q'] == reps[q'];
      case None =>
    }
  }

  /**
   * In the picture after m rounds, the token of round q < m is a C string: the
   * token unescaped reps[q] times, then a NUL.
   */
  lemma TokenHeld(b: seq<char>, s: string, steps: seq<Step>, m: nat, reps: seq<nat>, q: nat, c: seq<char>)
    requires HoldsLine(b, s) && Shows(c, b, s, steps, m, reps) && q < m
    requires steps[q].token.Some?
    ensures var st := steps[q];
            var t := st.token.value;
            HoldsCString(c, t, Repeat(reps[q], s[t..st.end]))
  {
    var st := steps[q];
    var t := st.token.value;
    var e := st.end;
    var w := Repeat(reps[q], s[t..e]);
    var p := Padded(w, e - t);
    var z := t + |w|;
    forall k | t <= k < e
      ensures c[k] == p[k - t]
    {
      ShowsAt(c, b, s, steps, m, reps, k);
      ExpectedInToken(b, s, steps, m, reps, q, k);
    }
    assert c[t..z] == w by {
      assert forall k :: t <= k < z ==> c[k] == p[..|w|][k - t];
    }
    assert NoNul(s[t..e]);
    RepeatNoNul(reps[q], s[t..e]);
    if z == e {
      ShowsAt(c, b, s, steps, m, reps, e);
      ExpectedAtEnd(b, s, steps, m, reps, q);
    }
  }

  // ---------------------------------------------------------------------------
  // Token bookkeeping

  /** Starts over one more round: its token, if it has one, is appended. */
  lemma StartsSnoc(steps: seq<Step>, m: nat)
    requires m < |steps|
    ensures Starts(steps[..m + 1]) ==
              Starts(steps[..m]) + (if steps[m].token.Some? then [steps[m].token.value] else [])
  {
    assert steps[..m + 1][..m] == steps[..m];
  }

  /** The tokens of the first m rounds are a prefix of all tokens. */
  lemma {:induction false} StartsPrefix(steps: seq<Step>, m: nat)
    requires m <= |steps|
    ensures Starts(steps[..m]) <= Starts(steps)
    decreases |steps| - m
  {
    if m == |steps| {
      assert steps[..m] == steps;
    } else {
      StartsPrefix(steps, m + 1);
      StartsSnoc(steps, m);
    }
  }

  /** Every round but the last counts a token. */
  lemma EarlyRoundsHaveTokens(s: string, q: nat)
    requires q + 1 < |Steps(s, 0)|
    ensures Steps(s, 0)[q].token.Some? && Steps(s, 0)[q].end < |s|
  {
    StepOf(s, 0, q);
    StepOf(s, 0, q + 1);
  }

  /**
   * The first token is counted in the first round: after m >= 1 rounds argc is
   * non-zero exactly when round 0 has a token, and argv[0] then points to it.
   */
  lemma {:induction false} FirstToken(s: string, m: nat)
    requires 1 <= m <= |Steps(s, 0)|
    ensures var steps := Steps(s, 0);
            && (|Starts(steps[..m])| > 0 <==> steps[0].token.Some?)
            && (steps[0].token.Some? ==> Starts(steps[..m])[0] == steps[0].token.value)
  {
    var steps := Steps(s, 0);
    StartsSnoc(steps, m - 1);
    if m == 1 {
      assert steps[..0] == [];
    } else {
      FirstToken(s, m - 1);
      EarlyRoundsHaveTokens(s, 0);
    }
  }

  /** The q-th token is the token of round q, when every round but the last has one. */
  lemma {:induction false} TokensAreRounds(steps: seq<Step>, m: nat)
    requires m <= |steps|
    requires forall q :: 0 <= q < |steps| - 1 ==> steps[q].token.Some?
    ensures var starts := Starts(steps[..m]);
            && |starts| <= m && (|starts| < m ==> |starts| + 1 == m == |steps| && steps[m - 1].token.None?)
            && forall q :: 0 <= q < |starts| ==> steps[q].token == Some(starts[q])
  {
    if m > 0 {
      TokensAreRounds(steps, m - 1);
      StartsSnoc(steps, m - 1);
      var starts' := Starts(steps[..m - 1]);
      var starts := Starts(steps[..m]);
      assert forall q :: 0 <= q < |starts'| ==> starts[q] == starts'[q];
    }
  }

  // ---------------------------------------------------------------------------
  // ParseCommandLine

  /** From position i on, the buffer still holds the command line s (no NUL inside) and its terminator. */
  predicate Agrees(c: seq<char>, s: string, i: nat) {
    && i <= |s| < |c| && NoNul(s) && c[|s|] == NUL
    && forall k :: i <= k < |s| ==> c[k] == s[k]
  }

  /** `while(isspace(*bufp)) ++bufp;` */
  method SkipSpaces(cmdline: array<char>, i: nat, ghost s: string) returns (p: nat)
    requires Agrees(cmdline[..], s, i)
    ensures p == SkipSpace(s, i)
  {
    p := i;
    while IsSpace(cmdline[p])
      invariant i <= p <= |s| && SkipSpace(s, p) == SkipSpace(s, i)
      decreases |s| - p
    {
      p := p + 1;
    }
    assert p < |s| ==> cmdline[p] == s[p];
    assert SkipSpace(s, p) == p;
  }

  /** `while(*bufp && !isspace(*bufp)) ++bufp;` */
  method SkipWord(cmdline: array<char>, i: nat, ghost s: string) returns (e: nat)
    requires Agrees(cmdline[..], s, i)
    ensures e == WordEnd(s, i)
  {
    e := i;
    while cmdline[e] != NUL && !IsSpace(cmdline[e])
      invariant i <= e <= |s| && WordEnd(s, e) == WordEnd(s, i)
      decreases |s| - e
    {
      e := e + 1;
    }
    assert e < |s| ==> cmdline[e] == s[e];
    assert WordEnd(s, e) == e;
  }

  /** The scan of a quoted argument, where `lastp` trails one character behind. */
  method SkipQuoted(cmdline: array<char>, start: nat, ghost s: string) returns (e: nat)
    requires Agrees(cmdline[..], s, start)
    ensures e == QuoteEnd(s, start, start)
  {
    var lastp := start;
    e := start;
    while cmdline[e] != NUL && (cmdline[e] != '"' || cmdline[lastp] == '\\')
      invariant start <= e <= |s| && lastp == (if e == start then start else e - 1)
      invariant QuoteEnd(s, start, e) == QuoteEnd(s, start, start)
      decreases |s| - e
    {
      lastp := e;
      e := e + 1;
    }
    assert e < |s| ==> cmdline[e] == s[e] && cmdline[lastp] == s[lastp];
    assert QuoteEnd(s, start, e) == e;
  }

  /**
   * The scanning part of one round of the outer loop: skip whitespace, then
   * a quoted or a plain argument. Returns where the token starts, if one is
   * counted, and the position that ends the argument.
   */
  method ScanStep(cmdline: array<char>, i: nat, ghost s: string) returns (token: Option<nat>, end: nat)
    requires Agrees(cmdline[..], s, i) && i < |s|
    ensures token == StepAt(s, i).token && end == StepAt(s, i).end
  {
    var p := SkipSpaces(cmdline, i, s);
    if cmdline[p] == '"' {
      p := p + 1;
      token := if cmdline[p] != NUL then Some(p) else None;
      end := SkipQuoted(cmdline, p, s);
    } else {
      token := if cmdline[p] != NUL then Some(p) else None;
      end := SkipWord(cmdline, p, s);
    }
  }

  /**
   * How often ParseCommandLine as written has unescaped each token after m
   * rounds: argv[0] once per round (`last_argc` stays 0), the others never.
   */
  function AsWrittenReps(steps: seq<Step>, m: nat): (r: seq<nat>)
    requires m <= |steps|
    ensures |r| == m
  {
    seq(m, q => if q == 0 && m > 0 && steps[0].token.Some? then m else 0)
  }

  /** The result of the writing pass of ParseCommandLine as written over the buffer b with its terminator at n. */
  ghost predicate ParsedAsWritten(c: seq<char>, b: seq<char>, n: nat)
    requires n <= |b|
  {
    var steps := Steps(b[..n], 0);
    Shows(c, b, b[..n], steps, |steps|, AsWrittenReps(steps, |steps|))
  }

  /** One round more: the as-written count grows by one for argv[0] only. */
  lemma AsWrittenStep(steps: seq<Step>, m: nat)
    requires m < |steps|
    ensures var r := AsWrittenReps(steps, m) + [0];
            && (steps[0].token.Some? ==> r[0 := r[0] + 1] == AsWrittenReps(steps, m + 1))
            && (steps[0].token.None? ==> r == AsWrittenReps(steps, m + 1))
  {
  }

  /** The last round ends the scan at the terminator. */
  lemma {:induction false} StepsLast(s: string, i: nat)
    requires i <= |s| && |Steps(s, i)| > 0
    ensures Steps(s, i)[|Steps(s, i)| - 1].next == |s|
    decreases |s| - i
  {
    var st := StepAt(s, i);
    if |Steps(s, st.next)| > 0 {
      StepsLast(s, st.next);
    }
  }

  /** Round m is the round that begins where it begins, and the next round begins where it leaves off. */
  lemma NextRound(s: string, m: nat)
    requires m < |Steps(s, 0)|
    ensures Steps(s, 0)[m].at < |s|
    ensures var steps := Steps(s, 0);
            && steps[m] == StepAt(s, steps[m].at)
            && (m + 1 < |steps| ==> steps[m + 1].at == steps[m].next)
            && (m + 1 == |steps| ==> steps[m].next == |s|)
  {
    StepOf(s, 0, m);
    if m + 1 == |Steps(s, 0)| {
      StepsLast(s, 0);
    }
  }

  /** The token of round 0 lies behind the position where round m - 1 left off. */
  lemma FirstIsBehind(s: string, m: nat)
    requires 1 <= m <= |Steps(s, 0)|
    ensures var steps := Steps(s, 0);
            steps[0].end < steps[m - 1].next || steps[0].end == steps[m - 1].next == |s|
  {
    StepsShape(s, 0);
    StepOf(s, 0, m - 1);
    if m > 1 {
      ApartPair(Steps(s, 0), 0, m - 1);
    }
  }

  /** argv holds the token positions `starts`, and beyond them its original entries `a0`. */
  ghost predicate ArgvHolds(av: seq<Option<nat>>, starts: seq<nat>, a0: seq<Option<nat>>) {
    && |starts| <= |av| == |a0|
    && (forall q :: 0 <= q < |starts| ==> av[q] == Some(starts[q]))
    && (forall q :: |starts| <= q < |av| ==> av[q] == a0[q])
  }

  /** The contents of argv, or None for a null argv. */
  ghost function ArgvOf(argv: array?<Option<nat>>): (r: Option<seq<Option<nat>>>)
    reads argv
    ensures r.None? <==> argv == null
    ensures r.Some? ==> r.value == argv[..]
  {
    if argv == null then None else Some(argv[..])
  }

  /** `if(*bufp) { if(argv) argv[argc] = bufp; ++argc; }` for the token of round m. */
  method CountToken(argv: array?<Option<nat>>, argc: nat, token: Option<nat>,
                    ghost steps: seq<Step>, ghost m: nat, ghost a0: seq<Option<nat>>)
    returns (argc': nat)
    requires m < |steps| && token == steps[m].token && argc == |Starts(steps[..m])|
    requires argv != null ==> ArgvHolds(argv[..], Starts(steps[..m]), a0) && |Starts(steps)| < argv.Length
    modifies argv
    ensures argc' == |Starts(steps[..m + 1])|
    ensures argv != null ==> ArgvHolds(argv[..], Starts(steps[..m + 1]), a0)
  {
    StartsSnoc(steps, m);
    argc' := argc;
    if token.Some? {
      StartsPrefix(steps, m + 1);
      if argv != null {
        argv[argc] := token;
      }
      argc' := argc + 1;
    }
  }

  /**
   * `if(*bufp) { if(argv) *bufp = '\0'; ++bufp; }` at the end of round m: the
   * next round begins after the NUL, or at the terminator.
   */
  method EndArgument(cmdline: array<char>, end: nat, writing: bool,
                     ghost b: seq<char>, ghost s: string, ghost steps: seq<Step>, ghost m: nat, ghost reps: seq<nat>)
    returns (bufp: nat)
    requires HoldsLine(b, s) && Fits(steps, s) && m < |steps| && |reps| == m && end == steps[m].end
    requires Agrees(cmdline[..], s, steps[m].at) && steps[m].at <= end
    requires writing ==> Shows(cmdline[..], b, s, steps, m, reps)
    requires !writing ==> cmdline[..] == b
    requires steps[m].next == (if end < |s| then end + 1 else |s|)
    modifies cmdline
    ensures bufp == steps[m].next && Agrees(cmdline[..], s, bufp)
    ensures writing ==> Shows(cmdline[..], b, s, steps, m + 1, reps + [0])
    ensures !writing ==> cmdline[..] == b
  {
    ghost var before := cmdline[..];
    bufp := end;
    if cmdline[bufp] != NUL {
      if writing {
        cmdline[bufp] := NUL;
      }
      bufp := bufp + 1;
    }
    if writing {
      DelimitStep(b, s, steps, m, reps, before, cmdline[..]);
    }
  }

  /**
   * The buffer c shows m rounds, the token of round q (one of them) starts at
   * t, and that round ended behind bufp, where the untouched rest begins.
   */
  ghost predicate TokenReady(c: seq<char>, b: seq<char>, s: string, steps: seq<Step>, m: nat, reps: seq<nat>,
                             q: nat, t: nat, bufp: nat) {
    var held := HoldsLine(b, s) && Shows(c, b, s, steps, m, reps) && q < m;
    var located :=
      && q < |steps| && steps[q].token == Some(t) && Agrees(c, s, bufp)
      && (steps[q].end < bufp || steps[q].end == bufp == |s|);
    held && located
  }

  /** The buffer c shows m rounds with the token of round q unescaped once more, and agrees from bufp on. */
  ghost predicate TokenDone(c: seq<char>, b: seq<char>, s: string, steps: seq<Step>, m: nat, reps: seq<nat>,
                            q: nat, bufp: nat) {
    var shown := q < |reps| && Shows(c, b, s, steps, m, reps[q := reps[q] + 1]);
    var agreed := Agrees(c, s, bufp);
    shown && agreed
  }

  /** In the writing pass the loop state provides what unescaping the token of a finished round needs. */
  lemma ParsingReady(c: seq<char>, av: Option<seq<Option<nat>>>, bufp: nat, argc: nat,
                     b: seq<char>, s: string, steps: seq<Step>, m: nat, a0: seq<Option<nat>>, reps: seq<nat>, q: nat, t: nat)
    requires Parsing(c, av, bufp, argc, b, s, steps, m, a0, reps) && av.Some? && q < m
    requires steps[q].token == Some(t) && (steps[q].end < bufp || steps[q].end == bufp == |s|)
    ensures TokenReady(c, b, s, steps, m, reps, q, t, bufp)
  {
  }

  /**
   * `UnEscapeQuotes(argv[0])` after m rounds: argv[0]'s token is unescaped
   * once more, and the buffer from the next round on stays as it was.
   */
  method UnescapeToken(cmdline: array<char>, t: nat, bufp: nat,
                       ghost b: seq<char>, ghost s: string, ghost steps: seq<Step>, ghost m: nat, ghost reps: seq<nat>, ghost q: nat)
    requires TokenReady(cmdline[..], b, s, steps, m, reps, q, t, bufp)
    modifies cmdline
    ensures TokenDone(cmdline[..], b, s, steps, m, reps, q, bufp)
  {
    ghost var w := Repeat(reps[q], s[t..steps[q].end]);
    TokenHeld(b, s, steps, m, reps, q, cmdline[..]);
    ghost var before := cmdline[..];
    assert cmdline[t..t + |w|] == before[t..t + |w|];
    UnEscapeQuotes(cmdline, t, t + |w|);
    ghost var after := cmdline[..];
    assert after[t..t + |w|] == Padded(Unescaped(before[t..t + |w|]), |w|);
    assert forall k :: 0 <= k < |before| && !(t <= k < t + |w|) ==> after[k] == before[k];
    UnescapeStep(b, s, steps, m, reps, q, before, after, w, t);
    AgreesKept(before, after, s, bufp, t, t + |w|);
  }

  /** Changing only positions before bufp keeps the rest of the command line in place. */
  lemma AgreesKept(c: seq<char>, c': seq<char>, s: string, bufp: nat, a: nat, z: nat)
    requires Agrees(c, s, bufp) && |c'| == |c| && z <= bufp && z <= |s|
    requires forall k :: 0 <= k < |c| && !(a <= k < z) ==> c'[k] == c[k]
    ensures Agrees(c', s, bufp)
  {
  }

  /**
   * The loop state of ParseCommandLine after m rounds, with bufp where round m
   * begins, over the buffer contents c and argv's contents av (None for a null
   * argv): argc counts the tokens so far, argv holds them, and the buffer is
   * untouched in the counting pass and, in the writing pass, the picture after
   * m rounds with the token of round q unescaped reps[q] times.
   */
  ghost predicate Parsing(c: seq<char>, av: Option<seq<Option<nat>>>, bufp: nat, argc: nat,
                          b: seq<char>, s: string, steps: seq<Step>, m: nat, a0: seq<Option<nat>>, reps: seq<nat>)
  {
    var positioned :=
      && HoldsLine(b, s) && steps == Steps(s, 0) && Fits(steps, s)
      && bufp <= |s| && m <= |steps|
      && (m < |steps| ==> steps[m].at == bufp) && (m == |steps| ==> bufp == |s|)
      && Agrees(c, s, bufp);
    var counted :=
      && m <= |steps| && argc == |Starts(steps[..m])|
      && (av.Some? ==> ArgvHolds(av.value, Starts(steps[..m]), a0) && |Tokens(s)| < |av.value|);
    var written :=
      && (av.None? ==> c == b)
      && (av.Some? ==> Shows(c, b, s, steps, m, reps));
    positioned && counted && written
  }

  /** Before the first round: nothing counted, nothing written, bufp at the start of the command line. */
  lemma ParsingStart(b: seq<char>, s: string, n: nat, av: Option<seq<Option<nat>>>, a0: seq<Option<nat>>, reps: seq<nat>)
    requires n < |b| && b[n] == NUL && NoNul(b[..n]) && s == b[..n]
    requires av.Some? ==> a0 == av.value && |Tokens(s)| < |a0|
    requires |reps| == 0
    ensures Parsing(b, av, 0, 0, b, s, Steps(s, 0), 0, a0, reps)
  {
    var steps := Steps(s, 0);
    StepsShape(s, 0);
    assert b[..|s|] == s;
    assert steps[..0] == [];
  }

  /** The counting pass does not depend on how often tokens would have been unescaped. */
  lemma ParsingCounting(c: seq<char>, bufp: nat, argc: nat, b: seq<char>, s: string, steps: seq<Step>, m: nat,
                        a0: seq<Option<nat>>, reps: seq<nat>, reps': seq<nat>)
    requires Parsing(c, None, bufp, argc, b, s, steps, m, a0, reps)
    ensures Parsing(c, None, bufp, argc, b, s, steps, m, a0, reps')
  {
  }

  /** Ending round m keeps the loop state, with one more round and its token not yet unescaped. */
  lemma ParsingAdvanced(c: seq<char>, av: Option<seq<Option<nat>>>, bufp: nat, argc: nat,
                        c': seq<char>, av': Option<seq<Option<nat>>>, bufp': nat, argc': nat,
                        b: seq<char>, s: string, steps: seq<Step>, m: nat, a0: seq<Option<nat>>, reps: seq<nat>)
    requires Parsing(c, av, bufp, argc, b, s, steps, m, a0, reps) && bufp < |s|
    requires m < |steps| && bufp' == steps[m].next
    requires m + 1 < |steps| ==> steps[m + 1].at == steps[m].next
    requires m + 1 == |steps| ==> steps[m].next == |s|
    requires argc' == |Starts(steps[..m + 1])| && Agrees(c', s, bufp') && av'.None? == av.None?
    requires av'.Some? ==> ArgvHolds(av'.value, Starts(steps[..m + 1]), a0) && |av'.value| == |av.value|
    requires av'.None? ==> c' == b
    requires av'.Some? ==> Shows(c', b, s, steps, m + 1, reps + [0])
    ensures Parsing(c', av', bufp', argc', b, s, steps, m + 1, a0, reps + [0])
  {
  }

  /** Unescaping the token of round q keeps the loop state, with the new unescape counts. */
  lemma ParsingUnescaped(c: seq<char>, c': seq<char>, av: Option<seq<Option<nat>>>, bufp: nat, argc: nat,
                         b: seq<char>, s: string, steps: seq<Step>, m: nat, a0: seq<Option<nat>>,
                         reps: seq<nat>, q: nat, reps': seq<nat>)
    requires Parsing(c, av, bufp, argc, b, s, steps, m, a0, reps) && av.Some?
    requires TokenDone(c', b, s, steps, m, reps, q, bufp) && reps' == reps[q := reps[q] + 1]
    ensures Parsing(c', av, bufp, argc, b, s, steps, m, a0, reps')
  {
  }

  /**
   * When argc is non-zero after m rounds, argv[0] holds the token of round 0,
   * which ended behind bufp, so it can be unescaped once more.
   */
  lemma FirstReady(c: seq<char>, av: Option<seq<Option<nat>>>, bufp: nat, argc: nat,
                   b: seq<char>, s: string, steps: seq<Step>, m: nat, a0: seq<Option<nat>>)
    requires 1 <= m <= |steps| && bufp == steps[m - 1].next
    requires Parsing(c, av, bufp, argc, b, s, steps, m, a0, AsWrittenReps(steps, m - 1) + [0])
    requires av.Some? && argc != 0
    ensures 0 < |av.value| && av.value[0].Some?
    ensures TokenReady(c, b, s, steps, m, AsWrittenReps(steps, m - 1) + [0], 0, av.value[0].value, bufp)
    ensures var reps := AsWrittenReps(steps, m - 1) + [0];
            reps[0 := reps[0] + 1] == AsWrittenReps(steps, m)
  {
    FirstToken(s, m);
    FirstIsBehind(s, m);
    AsWrittenStep(steps, m - 1);
    ParsingReady(c, av, bufp, argc, b, s, steps, m, a0, AsWrittenReps(steps, m - 1) + [0], 0, av.value[0].value);
  }

  /** When argv is null or still empty, round m - 1 unescapes nothing. */
  lemma FirstIdle(c: seq<char>, av: Option<seq<Option<nat>>>, bufp: nat, argc: nat,
                  b: seq<char>, s: string, steps: seq<Step>, m: nat, a0: seq<Option<nat>>)
    requires 1 <= m <= |steps|
    requires Parsing(c, av, bufp, argc, b, s, steps, m, a0, AsWrittenReps(steps, m - 1) + [0])
    requires av.None? || argc == 0
    ensures Parsing(c, av, bufp, argc, b, s, steps, m, a0, AsWrittenReps(steps, m))
  {
    if av.Some? {
      FirstToken(s, m);
      AsWrittenStep(steps, m - 1);
    } else {
      ParsingCounting(c, bufp, argc, b, s, steps, m, a0, AsWrittenReps(steps, m - 1) + [0], AsWrittenReps(steps, m));
    }
  }

  /**
   * Round m of the outer loop up to the unescaping: skip whitespace and the
   * argument, count its token, and end it with a NUL.
   */
  method Advance(cmdline: array<char>, argv: array?<Option<nat>>, bufp: nat, argc: nat,
                 ghost b: seq<char>, ghost s: string, ghost steps: seq<Step>, ghost m: nat,
                 ghost a0: seq<Option<nat>>, ghost reps: seq<nat>)
    returns (bufp': nat, argc': nat)
    requires Parsing(cmdline[..], ArgvOf(argv), bufp, argc, b, s, steps, m, a0, reps) && bufp < |s| && |reps| == m
    modifies cmdline, argv
    ensures Parsing(cmdline[..], ArgvOf(argv), bufp', argc', b, s, steps, m + 1, a0, reps + [0])
    ensures bufp < bufp' == steps[m].next
  {
    ghost var c := cmdline[..];
    ghost var av := ArgvOf(argv);
    NextRound(s, m);
    var token, end := ScanStep(cmdline, bufp, s);
    argc' := CountToken(argv, argc, token, steps, m, a0);
    bufp' := EndArgument(cmdline, end, argv != null, b, s, steps, m, reps);
    ParsingAdvanced(c, av, bufp, argc, cmdline[..], ArgvOf(argv), bufp', argc', b, s, steps, m, a0, reps);
  }

  /**
   * `if(argv && last_argc != argc) UnEscapeQuotes(argv[last_argc]);` after
   * round m - 1, with last_argc still 0: argv[0]'s token, once there is one,
   * is unescaped once more.
   */
  method UnescapeFirst(cmdline: array<char>, argv: array?<Option<nat>>, argc: nat, last_argc: nat, bufp: nat,
                       ghost b: seq<char>, ghost s: string, ghost steps: seq<Step>, ghost m: nat, ghost a0: seq<Option<nat>>)
    requires 1 <= m <= |steps|
    requires Parsing(cmdline[..], ArgvOf(argv), bufp, argc, b, s, steps, m, a0, AsWrittenReps(steps, m - 1) + [0])
    requires last_argc == 0 && bufp == steps[m - 1].next
    modifies cmdline
    ensures Parsing(cmdline[..], ArgvOf(argv), bufp, argc, b, s, steps, m, a0, AsWrittenReps(steps, m))
  {
    ghost var reps := AsWrittenReps(steps, m - 1) + [0];
    if argv != null && last_argc != argc {
      ghost var av := ArgvOf(argv);
      ghost var c := cmdline[..];
      FirstReady(c, av, bufp, argc, b, s, steps, m, a0);
      var t := argv[last_argc].value;
      UnescapeToken(cmdline, t, bufp, b, s, steps, m, reps, 0);
      assert ArgvOf(argv) == av;
      ParsingUnescaped(c, cmdline[..], av, bufp, argc, b, s, steps, m, a0, reps, 0, AsWrittenReps(steps, m));
    } else {
      FirstIdle(cmdline[..], ArgvOf(argv), bufp, argc, b, s, steps, m, a0);
    }
  }

  /** One round of the outer loop of ParseCommandLine. */
  method Round(cmdline: array<char>, argv: array?<Option<nat>>, bufp: nat, argc: nat, last_argc: nat,
               ghost b: seq<char>, ghost s: string, ghost steps: seq<Step>, ghost m: nat, ghost a0: seq<Option<nat>>)
    returns (bufp': nat, argc': nat)
    requires m <= |steps| && Parsing(cmdline[..], ArgvOf(argv), bufp, argc, b, s, steps, m, a0, AsWrittenReps(steps, m))
    requires bufp < |s| && last_argc == 0
    modifies cmdline, argv
    ensures m + 1 <= |steps| && Parsing(cmdline[..], ArgvOf(argv), bufp', argc', b, s, steps, m + 1, a0, AsWrittenReps(steps, m + 1))
    ensures bufp < bufp'
  {
    bufp', argc' := Advance(cmdline, argv, bufp, argc, b, s, steps, m, a0, AsWrittenReps(steps, m));
    UnescapeFirst(cmdline, argv, argc', last_argc, bufp', b, s, steps, m + 1, a0);
  }

  /**
   * When the outer loop stops at the terminator, every round is done: argc is
   * the number of tokens, argv holds their positions, and the buffer is the
   * picture of all rounds.
   */
  lemma ParsedAll(c: seq<char>, av: Option<seq<Option<nat>>>, bufp: nat, argc: nat,
                  b: seq<char>, s: string, steps: seq<Step>, m: nat, a0: seq<Option<nat>>, reps: seq<nat>)
    requires m <= |steps| && Parsing(c, av, bufp, argc, b, s, steps, m, a0, reps)
    requires bufp < |c| && c[bufp] == NUL
    ensures m == |steps| && argc == |Tokens(s)|
    ensures av.None? ==> c == b
    ensures av.Some? ==> argc < |av.value| && Shows(c, b, s, steps, m, reps)
    ensures av.Some? ==> forall q :: 0 <= q < argc ==> av.value[q] == Some(Tokens(s)[q])
    ensures av.Some? ==> forall q :: argc < q < |av.value| ==> av.value[q] == a0[q]
  {
    StepsShape(s, 0);
    assert steps[..m] == steps;
  }

  /**
   * ParseCommandLine(cmdline, argv): with argv null, only count the tokens;
   * otherwise also store their positions in argv, end argv with None, write a
   * NUL after each token, and unescape argv[0] once per round.
   */
  method ParseCommandLine(cmdline: array<char>, argv: array?<Option<nat>>, ghost n: nat) returns (argc: nat)
    requires n < cmdline.Length && cmdline[n] == NUL && NoNul(cmdline[..n])
    requires argv != null ==> |Tokens(cmdline[..n])| < argv.Length
    modifies cmdline, argv
    ensures argc == |Tokens(old(cmdline[..n]))|
    ensures argv == null ==> cmdline[..] == old(cmdline[..])
    ensures argv != null ==> forall q :: 0 <= q < argc ==> argv[q] == Some(Tokens(old(cmdline[..n]))[q])
    ensures argv != null ==> argv[argc] == None
    ensures argv != null ==> forall q :: argc < q < argv.Length ==> argv[q] == old(argv[q])
    ensures argv != null ==> ParsedAsWritten(cmdline[..], old(cmdline[..]), n)
  {
    ghost var b := cmdline[..];
    ghost var s := cmdline[..n];
    ghost var steps := Steps(s, 0);
    ghost var m: nat := 0;
    assert b[..|s|] == s;
    argc := 0;
    var last_argc := 0;
    var bufp := 0;
    ghost var a0 := if argv != null then argv[..] else [];
    ParsingStart(b, s, n, ArgvOf(argv), a0, AsWrittenReps(steps, 0));
    while cmdline[bufp] != NUL
      invariant m <= |steps| && Parsing(cmdline[..], ArgvOf(argv), bufp, argc, b, s, steps, m, a0, AsWrittenReps(steps, m))
      decreases |s| - bufp
    {
      bufp, argc := Round(cmdline, argv, bufp, argc, last_argc, b, s, steps, m, a0);
      m := m + 1;
    }
    ParsedAll(cmdline[..], ArgvOf(argv), bufp, argc, b, s, steps, m, a0, AsWrittenReps(steps, m));
    if argv != null {
      argv[argc] := None;
    }
  }
}
