/** The regular language the mail address pattern describes:

      ^([0-9a-zA-Z]([\+\-_\.][0-9a-zA-Z]+)*)+@(([0-9a-zA-Z][-\w]*[0-9a-zA-Z]*\.)+[a-zA-Z0-9]{2,17})$

    read in two ways: as predicates that follow the pattern's parts, and as
    a deterministic automaton that reads the string once. `\w` is taken as
    its ASCII part `[A-Za-z0-9_]`; `$` also matches just before a final
    '\n', as it does in .NET without `RegexOptions.Multiline`. */
module EmailPattern {
  import opened Ascii

  // ------------------------------------------------------------ character classes

  /** `[\+\-_\.]` */
  predicate IsSeparator(c: char) { c == '+' || c == '-' || c == '_' || c == '.' }

  /** `[-\w]` */
  predicate IsLabelChar(c: char) { IsAlphanumeric(c) || c == '_' || c == '-' }

  // ------------------------------------------------------------ the pattern's parts

  /** `([0-9a-zA-Z]([\+\-_\.][0-9a-zA-Z]+)*)+`: alphanumerics and
      separators, starting and ending with an alphanumeric, with every
      separator followed by an alphanumeric. */
  ghost predicate LocalPart(p: string) {
    |p| > 0 && IsAlphanumeric(p[0]) && IsAlphanumeric(p[|p| - 1])
    && (forall i :: 0 <= i < |p| ==> IsAlphanumeric(p[i]) || IsSeparator(p[i]))
    && (forall i, j :: 0 <= i < j < |p| && j == i + 1 && IsSeparator(p[i]) ==> IsAlphanumeric(p[j]))
  }

  /** `([0-9a-zA-Z][-\w]*[0-9a-zA-Z]*\.)+`: one or more labels, each
      starting with an alphanumeric and ending with '.'. */
  ghost predicate DottedLabels(t: string) {
    |t| >= 2 && IsAlphanumeric(t[0]) && t[|t| - 1] == '.'
    && (forall i :: 0 <= i < |t| ==> IsLabelChar(t[i]) || t[i] == '.')
    && (forall i, j :: 0 <= i < j < |t| && j == i + 1 && t[i] == '.' ==> IsAlphanumeric(t[j]))
  }

  /** `[a-zA-Z0-9]{2,17}` */
  ghost predicate TopLabel(t: string) {
    2 <= |t| <= 17 && forall i :: 0 <= i < |t| ==> IsAlphanumeric(t[i])
  }

  /** `d` is dotted labels up to its '.' at `k`, and a top label after it. */
  ghost predicate DotSplit(d: string, k: int) {
    0 <= k < |d| && d[k] == '.' && DottedLabels(d[..k + 1]) && TopLabel(d[k + 1..])
  }

  /** The part after '@'. */
  ghost predicate Domain(d: string) {
    exists k :: DotSplit(d, k)
  }

  /** `s` is a local part before its '@' at `i`, and a domain after it. */
  ghost predicate AtSplit(s: string, i: int) {
    0 <= i < |s| && s[i] == '@' && LocalPart(s[..i]) && Domain(s[i + 1..])
  }

  /** The whole pattern between `^` and `$`. */
  ghost predicate Address(s: string) {
    exists i :: AtSplit(s, i)
  }

  /** `Regex.IsMatch(s, pattern)`. */
  ghost predicate Matches(s: string) {
    Address(s) || (|s| > 0 && s[|s| - 1] == '\n' && Address(s[..|s| - 1]))
  }

  // ------------------------------------------------------------ the automaton

  /** `Segment(len, alnumOnly, dotted)` is inside the domain: `len` characters
      (at most 18 counted) since '@' or the last '.', `alnumOnly` when they
      are all alphanumeric, `dotted` once a '.' has been read. */
  datatype State =
    | Start
    | LocalAlnum
    | LocalSeparator
    | Segment(len: nat, alnumOnly: bool, dotted: bool)
    | Newline
    | Reject

  /** In a state where the input read so far matches the pattern. */
  predicate Final(q: State) {
    q.Segment? && q.dotted && q.alnumOnly && 2 <= q.len <= 17
  }

  predicate Accepting(q: State) {
    Final(q) || q == Newline
  }

  function Step(q: State, c: char): State {
    match q
    case Start => if IsAlphanumeric(c) then LocalAlnum else Reject
    case LocalAlnum =>
      if IsAlphanumeric(c) then LocalAlnum
      else if IsSeparator(c) then LocalSeparator
      else if c == '@' then Segment(0, true, false)
      else Reject
    case LocalSeparator => if IsAlphanumeric(c) then LocalAlnum else Reject
    case Segment(n, a, d) =>
      if n == 0 then (if IsAlphanumeric(c) then Segment(1, true, d) else Reject)
      else if IsLabelChar(c) then Segment(if n < 18 then n + 1 else 18, a && IsAlphanumeric(c), d)
      else if c == '.' then Segment(0, true, true)
      else if c == '\n' && Final(q) then Newline
      else Reject
    case Newline => Reject
    case Reject => Reject
  }

  /** The state after reading `s` from `q`. */
  function Run(q: State, s: string): State {
    if s == [] then q else Step(Run(q, s[..|s| - 1]), s[|s| - 1])
  }

  /** The automaton reading `s` from position `i` on. */
  function Scan(q: State, s: string, i: nat): State
    requires i <= |s|
    decreases |s| - i
  {
    if i == |s| then q else Scan(Step(q, s[i]), s, i + 1)
  }

  /** The recognizer: the automaton accepts exactly the strings the
      pattern matches. */
  function Recognize(s: string): (r: bool)
    ensures r <==> Matches(s)
  {
    ScanMatches(s);
    Accepting(Scan(Start, s, 0))
  }

  // ------------------------------------------------------------ the automaton reads parts

  lemma {:induction false} RunAppend(q: State, a: string, b: string)
    ensures Run(q, a + b) == Run(Run(q, a), b)
    decreases |b|
  {
    if b != [] {
      assert (a + b)[..|a + b| - 1] == a + b[..|b| - 1];
      assert (a + b)[|a + b| - 1] == b[|b| - 1];
      RunAppend(q, a, b[..|b| - 1]);
    } else {
      assert a + b == a;
    }
  }

  lemma {:induction false} RunReject(s: string)
    ensures Run(Reject, s) == Reject
    decreases |s|
  {
    if s != [] {
      RunReject(s[..|s| - 1]);
    }
  }

  /** The state the automaton is in after reading a string without '@'. */
  ghost function LocalState(p: string): State {
    if p == [] then Start
    else if LocalPart(p) then LocalAlnum
    else if IsSeparator(p[|p| - 1]) && LocalPart(p[..|p| - 1]) then LocalSeparator
    else Reject
  }

  lemma {:induction false} LocalRun(p: string)
    requires forall i :: 0 <= i < |p| ==> p[i] != '@'
    ensures Run(Start, p) == LocalState(p)
    decreases |p|
  {
    if p != [] {
      var q, c := p[..|p| - 1], p[|p| - 1];
      LocalRun(q);
      assert p == q + [c];
      assert forall i :: 0 <= i < |q| ==> p[i] == q[i];
      if q != [] && LocalPart(p) {
        if IsSeparator(q[|q| - 1]) {
          assert q[..|q| - 1] == p[..|q| - 1];
          assert LocalPart(q[..|q| - 1]);
        } else {
          assert LocalPart(q);
        }
      }
    }
  }

  /** The characters after '@' or the last '.'. */
  ghost function LastSegment(d: string): (seg: string)
    ensures |seg| <= |d|
  {
    if d == [] || d[|d| - 1] == '.' then [] else LastSegment(d[..|d| - 1]) + [d[|d| - 1]]
  }

  /** The last segment is the dot-free end of `d`, after a '.' if shorter. */
  lemma {:induction false} LastSegmentShape(d: string)
    ensures var seg := LastSegment(d);
      seg == d[|d| - |seg|..]
      && (forall i :: 0 <= i < |seg| ==> seg[i] != '.')
      && (|seg| < |d| ==> d[|d| - |seg| - 1] == '.')
    decreases |d|
  {
    if d != [] && d[|d| - 1] != '.' {
      var q, c := d[..|d| - 1], d[|d| - 1];
      LastSegmentShape(q);
      assert d == q + [c];
      assert LastSegment(d) == LastSegment(q) + [c];
      ShapeSnoc(q, c, LastSegment(q));
    }
  }

  /** One more character that is not a dot extends the dot-free end. */
  lemma ShapeSnoc(q: string, c: char, seg: string)
    requires c != '.' && |seg| <= |q| && seg == q[|q| - |seg|..]
    requires forall i :: 0 <= i < |seg| ==> seg[i] != '.'
    requires |seg| < |q| ==> q[|q| - |seg| - 1] == '.'
    ensures var d, s := q + [c], seg + [c];
      s == d[|d| - |s|..]
      && (forall i :: 0 <= i < |s| ==> s[i] != '.')
      && (|s| < |d| ==> d[|d| - |s| - 1] == '.')
  {
    var d, s := q + [c], seg + [c];
    assert d[|d| - |s|..] == q[|q| - |seg|..] + [c];
    assert forall i :: 0 <= i < |s| ==> s[i] == if i < |seg| then seg[i] else c;
    if |s| < |d| {
      assert d[|d| - |s| - 1] == q[|q| - |seg| - 1];
    }
  }

  ghost predicate HasDot(d: string) {
    exists i :: 0 <= i < |d| && d[i] == '.'
  }

  /** Label characters and dots, with an alphanumeric first and after
      every dot but a final one. */
  ghost predicate DomainPrefix(d: string) {
    (|d| > 0 ==> IsAlphanumeric(d[0]))
    && (forall i :: 0 <= i < |d| ==> IsLabelChar(d[i]) || d[i] == '.')
    && (forall i, j :: 0 <= i < j < |d| && j == i + 1 && d[i] == '.' ==> IsAlphanumeric(d[j]))
  }

  ghost predicate AllAlphanumeric(t: string) {
    forall i :: 0 <= i < |t| ==> IsAlphanumeric(t[i])
  }

  ghost function DomainState(d: string): State {
    if DomainPrefix(d) then
      var seg := LastSegment(d);
      Segment(if |seg| < 18 then |seg| else 18, AllAlphanumeric(seg), HasDot(d))
    else Reject
  }

  lemma DomainPrefixSnoc(q: string, c: char)
    ensures DomainPrefix(q + [c]) <==>
      DomainPrefix(q) && (if q == [] || q[|q| - 1] == '.' then IsAlphanumeric(c) else IsLabelChar(c) || c == '.')
  {
    var d := q + [c];
    assert forall i :: 0 <= i < |q| ==> d[i] == q[i];
    assert d[|q|] == c;
    if q != [] && q[|q| - 1] == '.' {
      assert d[|q| - 1] == '.';
    }
  }

  lemma HasDotSnoc(q: string, c: char)
    ensures HasDot(q + [c]) <==> HasDot(q) || c == '.'
  {
    var d := q + [c];
    assert forall i :: 0 <= i < |q| ==> d[i] == q[i];
    if HasDot(d) && c != '.' {
      var i :| 0 <= i < |d| && d[i] == '.';
      assert q[i] == '.';
    }
    if c == '.' {
      assert d[|q|] == '.';
    }
  }

  lemma LastSegmentSnoc(q: string, c: char)
    ensures LastSegment(q + [c]) == if c == '.' then [] else LastSegment(q) + [c]
    ensures LastSegment(q) == [] <==> q == [] || q[|q| - 1] == '.'
  {
    assert (q + [c])[..|q|] == q;
  }

  lemma AllAlphanumericSnoc(t: string, c: char)
    ensures AllAlphanumeric(t + [c]) <==> AllAlphanumeric(t) && IsAlphanumeric(c)
  {
    assert forall i :: 0 <= i < |t| ==> (t + [c])[i] == t[i];
    assert (t + [c])[|t|] == c;
  }

  lemma {:induction false} DomainRun(d: string)
    requires forall i :: 0 <= i < |d| ==> d[i] != '\n'
    ensures Run(Segment(0, true, false), d) == DomainState(d)
    decreases |d|
  {
    if d != [] {
      var q, c := d[..|d| - 1], d[|d| - 1];
      DomainRun(q);
      assert d == q + [c];
      DomainPrefixSnoc(q, c);
      HasDotSnoc(q, c);
      LastSegmentSnoc(q, c);
      AllAlphanumericSnoc(LastSegment(q), c);
    } else {
      assert !HasDot(d);
    }
  }

  // ------------------------------------------------------------ the two readings agree

  /** The characters after the last '.' are not dots. */
  lemma AfterLastDot(d: string)
    ensures var k := |d| - |LastSegment(d)| - 1;
      (forall i :: k < i < |d| ==> d[i] != '.') && (k >= 0 ==> d[k] == '.')
      && d[k + 1..] == LastSegment(d)
  {
    var seg := LastSegment(d);
    var k := |d| - |seg| - 1;
    LastSegmentShape(d);
    assert forall i :: k < i < |d| ==> d[i] == seg[i - k - 1];
  }

  /** A domain split at the dot `j` is split at its last dot. */
  lemma DomainAt(d: string, j: nat)
    requires j < |d| && d[j] == '.' && DottedLabels(d[..j + 1]) && TopLabel(d[j + 1..])
    ensures DomainPrefix(d) && HasDot(d) && LastSegment(d) == d[j + 1..]
  {
    AfterLastDot(d);
    assert forall i :: j < i < |d| ==> d[i] == d[j + 1..][i - j - 1];
    assert forall i :: 0 <= i <= j ==> d[i] == d[..j + 1][i];
    assert d[j + 1] == d[j + 1..][0];
  }

  lemma DomainOfState(d: string)
    requires DomainPrefix(d) && HasDot(d) && TopLabel(LastSegment(d))
    ensures var k := |d| - |LastSegment(d)| - 1;
      0 <= k < |d| && d[k] == '.' && DottedLabels(d[..k + 1]) && TopLabel(d[k + 1..])
  {
    var k := |d| - |LastSegment(d)| - 1;
    AfterLastDot(d);
    assert IsAlphanumeric(d[0]);
    assert forall i :: 0 <= i <= k ==> d[..k + 1][i] == d[i];
  }

  /** A domain is a valid prefix with a dot whose last segment is a top label. */
  lemma DomainByState(d: string)
    ensures Domain(d) <==> DomainPrefix(d) && HasDot(d) && TopLabel(LastSegment(d))
  {
    if Domain(d) {
      DomainToState(d);
    }
    if DomainPrefix(d) && HasDot(d) && TopLabel(LastSegment(d)) {
      StateToDomain(d);
    }
  }

  lemma DomainToState(d: string)
    requires Domain(d)
    ensures DomainPrefix(d) && HasDot(d) && TopLabel(LastSegment(d))
  {
    var j :| DotSplit(d, j);
    DomainAt(d, j);
  }

  lemma StateToDomain(d: string)
    requires DomainPrefix(d) && HasDot(d) && TopLabel(LastSegment(d))
    ensures Domain(d)
  {
    DomainOfState(d);
    assert DotSplit(d, |d| - |LastSegment(d)| - 1);
  }

  /** '@' cannot occur in a local part. */
  lemma FirstAt(s: string, i: nat, j: nat)
    requires i < |s| && s[i] == '@' && j < |s| && s[j] == '@'
    requires LocalPart(s[..i]) && LocalPart(s[..j])
    ensures i == j
  {
  }

  ghost predicate NoNewlineIn(s: string) {
    forall k :: 0 <= k < |s| ==> s[k] != '\n'
  }

  /** Only alphanumerics and `+ - _ .`, the characters the pattern allows
      besides its one '@'. */
  ghost predicate PlainChars(s: string) {
    forall k :: 0 <= k < |s| ==> IsAlphanumeric(s[k]) || IsSeparator(s[k])
  }

  lemma PlainCharsAppend(a: string, b: string)
    requires PlainChars(a) && PlainChars(b)
    ensures PlainChars(a + b)
  {
    assert forall k :: 0 <= k < |a + b| ==> (a + b)[k] == if k < |a| then a[k] else b[k - |a|];
  }

  lemma PartsPlainChars(p: string, t: string, top: string)
    requires LocalPart(p) && DottedLabels(t) && TopLabel(top)
    ensures PlainChars(p) && PlainChars(t) && PlainChars(top)
  {
  }

  lemma DomainPlainChars(d: string, j: nat)
    requires j < |d| && PlainChars(d[..j + 1]) && PlainChars(d[j + 1..])
    ensures PlainChars(d)
  {
    PlainCharsAppend(d[..j + 1], d[j + 1..]);
    assert d[..j + 1] + d[j + 1..] == d;
  }

  /** An address is plain characters around a single '@'. */
  lemma AddressShape(s: string) returns (i: nat)
    requires Address(s)
    ensures i < |s| && s[i] == '@' && LocalPart(s[..i]) && Domain(s[i + 1..])
    ensures PlainChars(s[..i]) && PlainChars(s[i + 1..])
  {
    i :| AtSplit(s, i);
    var d := s[i + 1..];
    var j :| DotSplit(d, j);
    PartsPlainChars(s[..i], d[..j + 1], d[j + 1..]);
    DomainPlainChars(d, j);
  }

  lemma OnlyAt(s: string, i: nat)
    requires i < |s| && s[i] == '@' && PlainChars(s[..i]) && PlainChars(s[i + 1..])
    ensures forall k :: 0 <= k < |s| && s[k] == '@' ==> k == i
  {
    assert forall k :: 0 <= k < i ==> s[k] == s[..i][k];
    assert forall k :: i < k < |s| ==> s[k] == s[i + 1..][k - i - 1];
  }

  /** A matching string has exactly one '@'. */
  lemma SingleAt(s: string)
    requires Matches(s)
    ensures exists i :: 0 <= i < |s| && s[i] == '@' && forall k :: 0 <= k < |s| && s[k] == '@' ==> k == i
  {
    if Address(s) {
      var i := AddressShape(s);
      OnlyAt(s, i);
    } else {
      var t := s[..|s| - 1];
      var i := AddressShape(t);
      OnlyAt(t, i);
      assert forall k :: 0 <= k < |t| ==> s[k] == t[k];
    }
  }

  /** No part of the pattern matches '\n'. */
  lemma NoNewline(s: string)
    requires Address(s)
    ensures NoNewlineIn(s)
  {
    var i := AddressShape(s);
    assert forall k :: 0 <= k < i ==> s[k] == s[..i][k];
    assert forall k :: i < k < |s| ==> s[k] == s[i + 1..][k - i - 1];
  }

  /** The automaton reads a string in three parts around its first '@'. */
  lemma RunAtSplit(s: string, i: nat)
    requires i < |s| && s[i] == '@'
    ensures Run(Start, s) == Run(Step(Run(Start, s[..i]), '@'), s[i + 1..])
  {
    var p, d := s[..i], s[i + 1..];
    assert s == p + ([s[i]] + d);
    RunAppend(Start, p, [s[i]] + d);
    RunAppend(Run(Start, p), [s[i]], d);
    assert Run(Run(Start, p), [s[i]]) == Step(Run(Start, p), '@') by {
      assert [s[i]][..0] == [];
    }
  }

  /** Only the first '@' can end a local part. */
  lemma AddressAtFirst(s: string, i: nat)
    requires i < |s| && s[i] == '@' && forall j :: 0 <= j < i ==> s[j] != '@'
    ensures Address(s) <==> LocalPart(s[..i]) && Domain(s[i + 1..])
  {
    if Address(s) {
      var i' :| AtSplit(s, i');
      assert forall j :: 0 <= j < i' ==> s[j] == s[..i'][j];
      assert i' == i;
    }
    if LocalPart(s[..i]) && Domain(s[i + 1..]) {
      assert AtSplit(s, i);
    }
  }

  /** Without '\n', the automaton ends in a final state exactly on the
      strings the pattern describes, and never in `Newline`. */
  lemma AddressRun(s: string)
    requires NoNewlineIn(s)
    ensures Final(Run(Start, s)) <==> Address(s)
    ensures Run(Start, s) != Newline
  {
    if i :| 0 <= i < |s| && s[i] == '@' && forall j :: 0 <= j < i ==> s[j] != '@' {
      var p, d := s[..i], s[i + 1..];
      RunAtSplit(s, i);
      assert forall j :: 0 <= j < |p| ==> p[j] == s[j];
      LocalRun(p);
      AddressAtFirst(s, i);
      if LocalPart(p) {
        assert forall j :: 0 <= j < |d| ==> d[j] == s[i + 1 + j];
        DomainRun(d);
        DomainByState(d);
      } else {
        RunReject(d);
      }
    } else {
      NoAtRun(s);
    }
  }

  /** A string without '@' leaves the automaton in the local part. */
  lemma NoAtRun(s: string)
    requires !exists i :: 0 <= i < |s| && s[i] == '@' && forall j :: 0 <= j < i ==> s[j] != '@'
    ensures Run(Start, s) in {Start, LocalAlnum, LocalSeparator, Reject}
    ensures !Address(s)
  {
    forall i | 0 <= i < |s| ensures s[i] != '@' {
      if s[i] == '@' {
        FirstAtExists(s, i);
      }
    }
    LocalRun(s);
  }

  lemma {:induction false} FirstAtExists(s: string, i: nat)
    requires i < |s| && s[i] == '@'
    ensures exists k :: 0 <= k < |s| && s[k] == '@' && forall j :: 0 <= j < k ==> s[j] != '@'
    decreases i
  {
    if j :| 0 <= j < i && s[j] == '@' {
      FirstAtExists(s, j);
    }
  }

  lemma {:induction false} RunAfterNewline(s: string)
    ensures Run(Newline, s) == if s == [] then Newline else Reject
    decreases |s|
  {
    if s != [] {
      RunAfterNewline(s[..|s| - 1]);
    }
  }

  lemma RecognizeMatches(s: string)
    ensures Accepting(Run(Start, s)) <==> Matches(s)
  {
    if k :| 0 <= k < |s| - 1 && s[k] == '\n' {
      EarlyNewlineRun(s, k);
      EarlyNewlineNoMatch(s, k);
    } else if |s| > 0 && s[|s| - 1] == '\n' {
      var t := s[..|s| - 1];
      AddressRun(t);
      if Address(s) {
        NoNewline(s);
      }
    } else {
      AddressRun(s);
    }
  }

  /** After a '\n' that is not the last character the automaton rejects. */
  lemma EarlyNewlineRun(s: string, k: nat)
    requires k < |s| - 1 && s[k] == '\n'
    ensures !Accepting(Run(Start, s))
  {
    assert s == s[..k + 1] + s[k + 1..];
    RunAppend(Start, s[..k + 1], s[k + 1..]);
    var q := Run(Start, s[..k + 1]);
    assert q == Step(Run(Start, s[..k]), '\n') by {
      assert s[..k + 1][..k] == s[..k];
    }
    assert q in {Newline, Reject};
    if q == Reject {
      RunReject(s[k + 1..]);
    } else {
      RunAfterNewline(s[k + 1..]);
    }
  }

  /** Neither may the pattern match a '\n' that is not the last character. */
  lemma EarlyNewlineNoMatch(s: string, k: nat)
    requires k < |s| - 1 && s[k] == '\n'
    ensures !Matches(s)
  {
    assert s[..|s| - 1][k] == '\n';
    if Address(s) {
      NoNewline(s);
    }
    if Address(s[..|s| - 1]) {
      NoNewline(s[..|s| - 1]);
    }
  }

  lemma {:induction false} ScanRun(q: State, s: string, i: nat)
    requires i <= |s|
    ensures Scan(q, s, i) == Run(q, s[i..])
    decreases |s| - i
  {
    if i < |s| {
      ScanRun(Step(q, s[i]), s, i + 1);
      RunAppend(q, [s[i]], s[i + 1..]);
      assert [s[i]] + s[i + 1..] == s[i..];
      assert Run(q, [s[i]]) == Step(q, s[i]) by {
        assert [s[i]][..0] == [];
      }
    }
  }

  lemma ScanAppend(q: State, a: string, b: string)
    ensures Scan(q, a + b, 0) == Scan(Scan(q, a, 0), b, 0)
  {
    ScanRun(q, a + b, 0);
    ScanRun(q, a, 0);
    ScanRun(Scan(q, a, 0), b, 0);
    assert (a + b)[0..] == a + b && a[0..] == a && b[0..] == b;
    RunAppend(q, a, b);
  }

  lemma ScanReject(s: string)
    ensures Scan(Reject, s, 0) == Reject
  {
    ScanRun(Reject, s, 0);
    RunReject(s[0..]);
  }

  lemma ScanMatches(s: string)
    ensures Accepting(Scan(Start, s, 0)) <==> Matches(s)
  {
    ScanRun(Start, s, 0);
    assert s[0..] == s;
    RecognizeMatches(s);
  }

  // ------------------------------------------------------------ properties of the language

  /** A matching string starts with an alphanumeric, so the empty string
      and strings of white space do not match. */
  lemma FirstAlphanumeric(s: string)
    requires Matches(s)
    ensures |s| > 0 && IsAlphanumeric(s[0])
  {
    var t := if Address(s) then s else s[..|s| - 1];
    var i :| AtSplit(t, i);
    assert t[..i][0] == s[0];
  }

  lemma WhiteSpaceNotMatches(s: string)
    requires IsNullOrWhiteSpace(s)
    ensures !Matches(s)
  {
    if Matches(s) {
      FirstAlphanumeric(s);
    }
  }

  /** `ToLowerInvariant` maps no character the automaton tells apart onto
      another, so it moves the automaton the same way. */
  lemma {:induction false} RunToLower(q: State, s: string)
    ensures Run(q, ToLowerString(s)) == Run(q, s)
    decreases |s|
  {
    if s != [] {
      var t := ToLowerString(s);
      RunToLower(q, s[..|s| - 1]);
      assert t[..|t| - 1] == ToLowerString(s[..|s| - 1]);
    }
  }

  /** A string matches exactly when its lower-case form does. */
  lemma MatchesToLower(s: string)
    ensures Matches(ToLowerString(s)) <==> Matches(s)
  {
    RunToLower(Start, s);
    RecognizeMatches(s);
    RecognizeMatches(ToLowerString(s));
  }
}
