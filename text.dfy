/**
 * The text normaliser (`sanitize_text`) and the history preview.
 * Sanitising strips the text at both ends and then replaces every run of
 * whitespace by one space.
 */
module Text {
  import opened Common

  /** Python's whitespace: the characters for which `str.isspace()` holds,
      which are also the ones `\s` matches in a `str` pattern. */
  predicate IsSpace(c: char)
  {
    || ('\t' <= c <= '\r')
    || ('\U{1c}' <= c <= '\U{1f}')
    || c == ' '
    || c == '\U{85}'
    || c == '\U{a0}'
    || c == '\U{1680}'
    || ('\U{2000}' <= c <= '\U{200a}')
    || c == '\U{2028}'
    || c == '\U{2029}'
    || c == '\U{202f}'
    || c == '\U{205f}'
    || c == '\U{3000}'
  }

  /** The characters of `s` that are not whitespace, in order. */
  function Squeeze(s: string): string
  {
    if s == [] then [] else (if IsSpace(s[0]) then [] else [s[0]]) + Squeeze(s[1..])
  }

  lemma {:induction false} SqueezeAppend(a: string, b: string)
    ensures Squeeze(a + b) == Squeeze(a) + Squeeze(b)
  {
    if a == [] {
      assert a + b == b;
    } else {
      assert (a + b)[1..] == a[1..] + b;
      SqueezeAppend(a[1..], b);
    }
  }

  /** Drops the leading whitespace. */
  function TrimStart(s: string): (r: string)
    ensures |r| <= |s| && r == s[|s| - |r|..]
    ensures r == [] || !IsSpace(r[0])
    ensures forall i :: 0 <= i < |s| - |r| ==> IsSpace(s[i])
    ensures Squeeze(r) == Squeeze(s)
  {
    if s != [] && IsSpace(s[0]) then TrimStart(s[1..]) else s
  }

  /** Drops the trailing whitespace. */
  function TrimEnd(s: string): (r: string)
    ensures |r| <= |s| && r == s[..|r|]
    ensures r == [] || !IsSpace(r[|r| - 1])
    ensures forall i :: |r| <= i < |s| ==> IsSpace(s[i])
    ensures Squeeze(r) == Squeeze(s)
  {
    if s != [] && IsSpace(s[|s| - 1]) then
      var init := s[..|s| - 1];
      assert s == init + [s[|s| - 1]];
      SqueezeAppend(init, [s[|s| - 1]]);
      TrimEnd(init)
    else s
  }

  /** Every whitespace character is a plain space. */
  predicate OnlyBlanks(t: string)
  {
    forall i :: 0 <= i < |t| && IsSpace(t[i]) ==> t[i] == ' '
  }

  /** No two whitespace characters stand next to each other. */
  predicate NoDoubleSpace(t: string)
  {
    forall i :: 0 <= i < |t| - 1 ==> !IsSpace(t[i]) || !IsSpace(t[i + 1])
  }

  /** The shape of sanitised text. */
  predicate Clean(t: string)
  {
    && (|t| > 0 ==> !IsSpace(t[0]) && !IsSpace(t[|t| - 1]))
    && OnlyBlanks(t)
    && NoDoubleSpace(t)
  }

  /** `re.sub(r'\s+', ' ', s)`: each maximal run of whitespace becomes one space. */
  function Collapse(s: string): (r: string)
    ensures |r| == 0 <==> |s| == 0
    ensures |s| > 0 ==> (IsSpace(r[0]) <==> IsSpace(s[0]))
    ensures OnlyBlanks(r) && NoDoubleSpace(r)
    decreases |s|
  {
    if s == [] then []
    else if IsSpace(s[0]) then
      var tail := Collapse(TrimStart(s[1..]));
      ConsKeepsShape(' ', tail);
      [' '] + tail
    else
      var tail := Collapse(s[1..]);
      ConsKeepsShape(s[0], tail);
      [s[0]] + tail
  }

  /** Putting one character in front of collapsed text keeps its shape,
      unless it puts two whitespace characters side by side. */
  lemma ConsKeepsShape(c: char, t: string)
    requires OnlyBlanks(t) && NoDoubleSpace(t)
    requires IsSpace(c) ==> c == ' ' && (t == [] || !IsSpace(t[0]))
    ensures OnlyBlanks([c] + t) && NoDoubleSpace([c] + t)
    ensures ([c] + t)[0] == c
  {
    var r := [c] + t;
    forall i | 0 <= i < |r| - 1
      ensures !IsSpace(r[i]) || !IsSpace(r[i + 1])
    {
      if i > 0 {
        assert r[i] == t[i - 1] && r[i + 1] == t[i];
      }
    }
  }

  /** Collapsing never lengthens the text. */
  lemma {:induction false} CollapseShortens(s: string)
    ensures |Collapse(s)| <= |s|
    decreases |s|
  {
    if s != [] {
      if IsSpace(s[0]) {
        CollapseShortens(TrimStart(s[1..]));
      } else {
        CollapseShortens(s[1..]);
      }
    }
  }

  /** Collapsed text ends in whitespace exactly when the input does. */
  lemma {:induction false} CollapseLastChar(s: string)
    ensures s != [] ==> (IsSpace(Collapse(s)[|Collapse(s)| - 1]) <==> IsSpace(s[|s| - 1]))
    decreases |s|
  {
    var r := Collapse(s);
    if s == [] {
    } else if IsSpace(s[0]) {
      var rest := TrimStart(s[1..]);
      assert r == [' '] + Collapse(rest);
      if rest == [] {
        assert |s| == 1 || IsSpace(s[1..][|s| - 2]);
      } else {
        CollapseLastChar(rest);
        assert rest[|rest| - 1] == s[|s| - 1];
      }
    } else if |s| > 1 {
      CollapseLastChar(s[1..]);
      assert r == [s[0]] + Collapse(s[1..]);
    }
  }

  /** Collapsing keeps the non-whitespace characters, in order. */
  lemma {:induction false} CollapseKeepsWords(s: string)
    ensures Squeeze(Collapse(s)) == Squeeze(s)
    decreases |s|
  {
    if s != [] {
      if IsSpace(s[0]) {
        var rest := TrimStart(s[1..]);
        CollapseKeepsWords(rest);
        SqueezeCons(' ', Collapse(rest));
      } else {
        CollapseKeepsWords(s[1..]);
        SqueezeCons(s[0], Collapse(s[1..]));
      }
    }
  }

  lemma SqueezeCons(c: char, t: string)
    ensures Squeeze([c] + t) == (if IsSpace(c) then [] else [c]) + Squeeze(t)
  {
    assert ([c] + t)[1..] == t;
  }

  /** `sanitize_text`: strip, then collapse whitespace runs. */
  function Sanitize(s: string): (r: string)
    ensures Clean(r)
    ensures Squeeze(r) == Squeeze(s)
    ensures |r| <= |s|
  {
    var t := TrimEnd(TrimStart(s));
    CollapseShortens(t);
    CollapseKeepsWords(t);
    CollapseLastChar(t);
    Collapse(t)
  }

  lemma {:induction false} CollapseKeepsBlankText(t: string)
    requires OnlyBlanks(t) && NoDoubleSpace(t)
    ensures Collapse(t) == t
    decreases |t|
  {
    if t != [] {
      assert OnlyBlanks(t[1..]) && NoDoubleSpace(t[1..]);
      CollapseKeepsBlankText(t[1..]);
      if IsSpace(t[0]) {
        assert t[1..] == [] || !IsSpace(t[1]);
        assert TrimStart(t[1..]) == t[1..];
      }
      assert t == [t[0]] + t[1..];
    }
  }

  /** Sanitised text is left as it is by another sanitising. */
  lemma SanitizeKeepsCleanText(t: string)
    requires Clean(t)
    ensures Sanitize(t) == t
  {
    assert TrimStart(t) == t;
    assert TrimEnd(t) == t;
    CollapseKeepsBlankText(t);
  }

  /** Sanitising twice gives the same text as sanitising once. */
  lemma SanitizeIdempotent(s: string)
    ensures Sanitize(Sanitize(s)) == Sanitize(s)
  {
    SanitizeKeepsCleanText(Sanitize(s));
  }

  /** The texts that sanitising leaves unchanged are exactly the clean ones. */
  lemma SanitizeFixedPoints(t: string)
    ensures Sanitize(t) == t <==> Clean(t)
  {
    if Clean(t) {
      SanitizeKeepsCleanText(t);
    }
  }

  /** No character of `t` is whitespace. */
  predicate Word(t: string)
  {
    forall i :: 0 <= i < |t| ==> !IsSpace(t[i])
  }

  /** Every character of `t` is whitespace. */
  predicate Blank(t: string)
  {
    forall i :: 0 <= i < |t| ==> IsSpace(t[i])
  }

  /** Stripping the front of a whitespace run and what follows it leaves what follows. */
  lemma {:induction false} TrimStartDropsBlank(run: string, v: string)
    requires Blank(run) && (v == [] || !IsSpace(v[0]))
    ensures TrimStart(run + v) == v
    decreases |run|
  {
    if run == [] {
      assert run + v == v;
    } else {
      assert (run + v)[1..] == run[1..] + v;
      TrimStartDropsBlank(run[1..], v);
    }
  }

  /** One unfolding of `Collapse` at a non-whitespace character. */
  lemma CollapseKeepsWordChar(t: string)
    requires t != [] && !IsSpace(t[0])
    ensures Collapse(t) == [t[0]] + Collapse(t[1..])
  {
  }

  /** One unfolding of `Collapse` at a whitespace run. */
  lemma CollapseLeadingRun(t: string, w: string)
    requires t != [] && IsSpace(t[0]) && TrimStart(t[1..]) == w
    ensures Collapse(t) == [' '] + Collapse(w)
  {
  }

  /** A whitespace run before a non-whitespace character collapses to a single space. */
  lemma CollapseRunBefore(run: string, w: string)
    requires run != [] && Blank(run)
    requires w != [] && !IsSpace(w[0])
    ensures Collapse(run + w) == [' '] + Collapse(w)
  {
    var t := run + w;
    assert t[0] == run[0] && t[1..] == run[1..] + w;
    TrimStartDropsBlank(run[1..], w);
    CollapseLeadingRun(t, w);
  }

  /** Stripping the front of text that ends in a non-whitespace character
      leaves what follows it untouched. */
  lemma {:induction false} TrimStartAppend(x: string, y: string)
    requires x != [] && !IsSpace(x[|x| - 1])
    ensures TrimStart(x + y) == TrimStart(x) + y
    decreases |x|
  {
    var s := x + y;
    assert s[0] == x[0];
    if IsSpace(x[0]) {
      assert s[1..] == x[1..] + y;
      TrimStartAppend(x[1..], y);
    }
  }

  /** Stripping the back of text whose last part starts with a
      non-whitespace character leaves what precedes that part untouched. */
  lemma {:induction false} TrimEndAppend(w: string, v: string)
    requires v != [] && !IsSpace(v[0])
    ensures TrimEnd(w + v) == w + TrimEnd(v)
    decreases |v|
  {
    var s := w + v;
    assert s[|s| - 1] == v[|v| - 1];
    if IsSpace(v[|v| - 1]) {
      assert s[..|s| - 1] == w + v[..|v| - 1];
      TrimEndAppend(w, v[..|v| - 1]);
    }
  }

  /** Text that ends in a non-whitespace character keeps it when its front is stripped. */
  lemma TrimStartKeepsLast(u: string)
    requires u != [] && !IsSpace(u[|u| - 1])
    ensures TrimStart(u) != [] && TrimStart(u)[|TrimStart(u)| - 1] == u[|u| - 1]
  {
  }

  /** Text that starts with a non-whitespace character keeps it when its back is stripped. */
  lemma TrimEndKeepsFirst(v: string)
    requires v != [] && !IsSpace(v[0])
    ensures TrimEnd(v) != [] && TrimEnd(v)[0] == v[0]
  {
  }

  /** Collapsing works piece by piece at a boundary where the left piece
      ends in a non-whitespace character: no run straddles it. */
  lemma {:induction false} CollapseAppend(a: string, b: string)
    requires a != [] && !IsSpace(a[|a| - 1])
    ensures Collapse(a + b) == Collapse(a) + Collapse(b)
    decreases |a|
  {
    if IsSpace(a[0]) {
      var rest := TrimStart(a[1..]);
      TrimStartAppend(a[1..], b);
      TrimStartKeepsLast(a[1..]);
      CollapseAppend(rest, b);
      CollapseAppendRun(a, b, rest);
    } else if |a| == 1 {
      CollapseAppendWordChar(a, b);
    } else {
      CollapseAppend(a[1..], b);
      CollapseAppendWordChar(a, b);
    }
  }

  /** The step of `CollapseAppend` for a leading whitespace run. */
  lemma CollapseAppendRun(a: string, b: string, rest: string)
    requires a != [] && IsSpace(a[0]) && rest == TrimStart(a[1..])
    requires TrimStart(a[1..] + b) == rest + b
    requires Collapse(rest + b) == Collapse(rest) + Collapse(b)
    ensures Collapse(a + b) == Collapse(a) + Collapse(b)
  {
    var s := a + b;
    SplitHead(a, b);
    CollapseLeadingRun(s, rest + b);
    CollapseLeadingRun(a, rest);
    Regroup([' '], Collapse(rest), Collapse(b));
  }

  /** The step of `CollapseAppend` for a leading non-whitespace character. */
  lemma CollapseAppendWordChar(a: string, b: string)
    requires a != [] && !IsSpace(a[0])
    requires |a| > 1 ==> Collapse(a[1..] + b) == Collapse(a[1..]) + Collapse(b)
    ensures Collapse(a + b) == Collapse(a) + Collapse(b)
  {
    var s := a + b;
    SplitHead(a, b);
    CollapseKeepsWordChar(s);
    CollapseKeepsWordChar(a);
    if |a| == 1 {
      assert a[1..] == [] && a[1..] + b == b;
    }
    Regroup([a[0]], Collapse(a[1..]), Collapse(b));
  }

  /** Head and tail of a concatenation, kept apart from facts about `Collapse`. */
  lemma SplitHead(a: string, b: string)
    requires a != []
    ensures (a + b)[0] == a[0] && (a + b)[1..] == a[1..] + b
  {
  }

  /** Associativity of concatenation, kept apart from facts about `Collapse`. */
  lemma Regroup(x: string, y: string, z: string)
    ensures x + (y + z) == (x + y) + z == x + y + z
  {
  }

  /** Stripping text whose whitespace run lies between two non-whitespace
      characters strips only the outer pieces. */
  lemma StripAroundRun(u: string, run: string, v: string)
    requires u != [] && !IsSpace(u[|u| - 1])
    requires v != [] && !IsSpace(v[0])
    ensures TrimEnd(TrimStart(u + run + v)) == TrimStart(u) + (run + TrimEnd(v))
    ensures TrimEnd(TrimStart(u)) == TrimStart(u) && TrimStart(v) == v
    ensures TrimStart(u) != [] && !IsSpace(TrimStart(u)[|TrimStart(u)| - 1])
    ensures TrimEnd(v) != [] && !IsSpace(TrimEnd(v)[0])
  {
    var u' := TrimStart(u);
    Regroup(u, run, v);
    TrimStartAppend(u, run + v);
    Regroup(u', run, v);
    TrimEndAppend(u' + run, v);
    Regroup(u', run, TrimEnd(v));
    TrimStartKeepsLast(u);
    TrimEndKeepsFirst(v);
  }

  /** Sanitising splits at any whitespace run that lies between two
      non-whitespace characters, and the run becomes exactly one space. */
  lemma SanitizeSplitsAtRun(u: string, run: string, v: string)
    requires u != [] && !IsSpace(u[|u| - 1])
    requires run != [] && Blank(run)
    requires v != [] && !IsSpace(v[0])
    ensures Sanitize(u + run + v) == Sanitize(u) + " " + Sanitize(v)
  {
    var u', v' := TrimStart(u), TrimEnd(v);
    StripAroundRun(u, run, v);
    CollapseAppend(u', run + v');
    CollapseRunBefore(run, v');
    Regroup(Collapse(u'), [' '], Collapse(v'));
  }

  /** A single word is its own sanitised form. */
  lemma SanitizeKeepsWord(w: string)
    requires Word(w)
    ensures Sanitize(w) == w
  {
    SanitizeKeepsCleanText(w);
  }

  /** Two words joined by any run of whitespace come out joined by one space. */
  lemma SanitizeJoinsWords(u: string, run: string, v: string)
    requires u != [] && v != [] && run != []
    requires Word(u) && Blank(run) && Word(v)
    ensures Sanitize(u + run + v) == u + " " + v
  {
    assert !IsSpace(u[|u| - 1]) && !IsSpace(v[0]);
    SanitizeSplitsAtRun(u, run, v);
    SanitizeKeepsWord(u);
    SanitizeKeepsWord(v);
  }

  const PreviewLength: nat := 100
  const Ellipsis: string := "..."

  /** The stored `text_preview`: the first 100 characters, with "..." when the text was longer. */
  function Preview(t: string): (p: string)
    ensures |p| <= PreviewLength + |Ellipsis|
    ensures |t| <= PreviewLength ==> p == t
    ensures |t| > PreviewLength ==> |p| == PreviewLength + |Ellipsis| && p[..PreviewLength] == t[..PreviewLength] && p[PreviewLength..] == Ellipsis
  {
    if |t| > PreviewLength then t[..PreviewLength] + Ellipsis else t
  }
}
