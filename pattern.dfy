/**
 * The regular expressions of routes/index.js, written as lists of items and
 * run by one backtracking matcher. Every star is greedy: it first takes the
 * whole run of its class and gives characters back one at a time until the
 * rest of the pattern matches, which is the order in which JavaScript's
 * regular-expression engine tries the alternatives.
 */
module Pattern {
  import opened Wrappers
  import opened Text

  /** One element of a pattern. */
  datatype Item =
    | Lit(text: string)    // the literal text
    | Star(k: CharClass)   // [k]*
    | Group(k: CharClass)  // ([k]*), captured

  /** A pattern: its items, first to last. */
  datatype Pat = Done | Then(item: Item, next: Pat)

  /** The classes of the capturing groups of a pattern, in order. */
  function Groups(pat: Pat): seq<CharClass> {
    match pat
    case Done => []
    case Then(x, rest) => (if x.Group? then [x.k] else []) + Groups(rest)
  }

  /** The pattern's last item is the literal `t`. */
  predicate EndsWithLit(pat: Pat, t: string) {
    match pat
    case Done => false
    case Then(x, rest) => if rest.Done? then x == Lit(t) else EndsWithLit(rest, t)
  }

  /** The total length of the literals of a pattern: the least any match of it can span. */
  function LitLength(pat: Pat): nat {
    match pat
    case Done => 0
    case Then(x, rest) => (if x.Lit? then |x.text| else 0) + LitLength(rest)
  }

  /** A successful match: where it ends and the captured groups, in order. */
  datatype Scan = Scan(end: nat, groups: seq<string>)

  /** The first match of `pat` anchored at offset `i` of `s`, in backtracking order. */
  function Match(s: string, i: nat, pat: Pat): (r: Option<Scan>)
    requires i <= |s|
    ensures r.Some? ==> i <= r.value.end <= |s| && |r.value.groups| == |Groups(pat)|
    decreases pat, 1
  {
    match pat
    case Done => Some(Scan(i, []))
    case Then(Lit(t), rest) =>
      if LiteralAt(s, i, t) then Match(s, i + |t|, rest) else None
    case Then(x, rest) =>
      Backtrack(s, i, RunEnd(s, i, x.k), pat)
  }

  /**
   * The star (or group) `pat.item` that starts at `i`, tried on `s[i..j]`, then on
   * ever shorter runs, until the rest of the pattern matches after it.
   */
  function Backtrack(s: string, i: nat, j: nat, pat: Pat): (r: Option<Scan>)
    requires pat.Then? && !pat.item.Lit?
    requires i <= j <= |s|
    ensures r.Some? ==> i <= r.value.end <= |s| && |r.value.groups| == |Groups(pat)|
    decreases pat, 0, j - i
  {
    match Match(s, j, pat.next)
    case Some(after) =>
      if pat.item.Group? then Some(Scan(after.end, [s[i..j]] + after.groups)) else Some(after)
    case None =>
      if j == i then None else Backtrack(s, i, j - 1, pat)
  }

  /**
   * The pattern read as a grammar (the regular expression's own meaning):
   * `s[i..e]` splits into pieces, one per item, each literal equal to its
   * text and each star's piece made of characters of its class.
   */
  ghost predicate Derives(s: string, i: nat, pat: Pat, e: nat)
    decreases pat
  {
    && i <= e <= |s|
    && match pat
       case Done => i == e
       case Then(Lit(t), rest) => LiteralAt(s, i, t) && Derives(s, i + |t|, rest, e)
       case Then(x, rest) => exists j :: i <= j <= e && AllIn(s, i, j, x.k) && Derives(s, j, rest, e)
  }

  /** What the matcher reports is a match of the regular expression. */
  lemma {:induction false} MatchSound(s: string, i: nat, pat: Pat)
    requires i <= |s| && Match(s, i, pat).Some?
    ensures Derives(s, i, pat, Match(s, i, pat).value.end)
    decreases pat, 1
  {
    match pat
    case Done =>
    case Then(Lit(t), rest) =>
      MatchSound(s, i + |t|, rest);
    case Then(x, rest) =>
      RunEndSpan(s, i, x.k);
      BacktrackSound(s, i, RunEnd(s, i, x.k), pat);
  }

  lemma {:induction false} BacktrackSound(s: string, i: nat, j: nat, pat: Pat)
    requires pat.Then? && !pat.item.Lit?
    requires i <= j <= |s| && AllIn(s, i, j, pat.item.k)
    requires Backtrack(s, i, j, pat).Some?
    ensures Derives(s, i, pat, Backtrack(s, i, j, pat).value.end)
    decreases pat, 0, j - i
  {
    var e := Backtrack(s, i, j, pat).value.end;
    if Match(s, j, pat.next).Some? {
      MatchSound(s, j, pat.next);
      assert i <= j <= e && AllIn(s, i, j, pat.item.k) && Derives(s, j, pat.next, e);
    } else {
      BacktrackSound(s, i, j - 1, pat);
    }
  }

  /** Whenever the regular expression matches at `i`, the matcher finds a match there. */
  lemma {:induction false} MatchComplete(s: string, i: nat, pat: Pat, e: nat)
    requires Derives(s, i, pat, e)
    ensures Match(s, i, pat).Some?
    decreases pat
  {
    match pat
    case Done =>
    case Then(Lit(t), rest) =>
      MatchComplete(s, i + |t|, rest, e);
    case Then(x, rest) =>
      var j :| i <= j <= e && AllIn(s, i, j, x.k) && Derives(s, j, rest, e);
      MatchComplete(s, j, rest, e);
      RunEndCovers(s, i, j, x.k);
      BacktrackReaches(s, i, RunEnd(s, i, x.k), j, pat);
  }

  /** The matcher succeeds exactly when the regular expression matches, and what it reports is a match. */
  lemma MatchMeaning(s: string, i: nat, pat: Pat)
    requires i <= |s|
    ensures Match(s, i, pat).Some? <==> exists e :: Derives(s, i, pat, e)
    ensures Match(s, i, pat).Some? ==> Derives(s, i, pat, Match(s, i, pat).value.end)
  {
    if Match(s, i, pat).Some? {
      MatchSound(s, i, pat);
      var e := Match(s, i, pat).value.end;
      assert Derives(s, i, pat, e);
    } else if e :| Derives(s, i, pat, e) {
      MatchComplete(s, i, pat, e);
    }
  }

  /** Backtracking from `hi` down succeeds if the rest of the pattern matches after some `j <= hi`. */
  lemma {:induction false} BacktrackReaches(s: string, i: nat, hi: nat, j: nat, pat: Pat)
    requires pat.Then? && !pat.item.Lit?
    requires i <= j <= hi <= |s| && Match(s, j, pat.next).Some?
    ensures Backtrack(s, i, hi, pat).Some?
    decreases hi - j
  {
    if hi > j && Match(s, hi, pat.next).None? {
      BacktrackReaches(s, i, hi - 1, j, pat);
    }
  }

  /** Each captured group is a run of its group's class. */
  lemma {:induction false} MatchGroups(s: string, i: nat, pat: Pat)
    requires i <= |s| && Match(s, i, pat).Some?
    ensures forall n :: 0 <= n < |Match(s, i, pat).value.groups| ==>
      Word(Match(s, i, pat).value.groups[n], Groups(pat)[n])
    decreases pat, 1
  {
    match pat
    case Done =>
    case Then(Lit(t), rest) =>
      MatchGroups(s, i + |t|, rest);
    case Then(x, rest) =>
      RunEndSpan(s, i, x.k);
      BacktrackGroups(s, i, RunEnd(s, i, x.k), pat);
  }

  lemma {:induction false} BacktrackGroups(s: string, i: nat, j: nat, pat: Pat)
    requires pat.Then? && !pat.item.Lit?
    requires i <= j <= |s| && AllIn(s, i, j, pat.item.k)
    requires Backtrack(s, i, j, pat).Some?
    ensures forall n :: 0 <= n < |Backtrack(s, i, j, pat).value.groups| ==>
      Word(Backtrack(s, i, j, pat).value.groups[n], Groups(pat)[n])
    decreases pat, 0, j - i
  {
    if Match(s, j, pat.next).Some? {
      MatchGroups(s, j, pat.next);
      if pat.item.Group? {
        assert Word(s[i..j], pat.item.k) by {
          forall m | 0 <= m < j - i ensures InClass(s[i..j][m], pat.item.k) {
            assert s[i..j][m] == s[i + m];
          }
        }
      }
    } else {
      BacktrackGroups(s, i, j - 1, pat);
    }
  }

  /** A captured group is cut out of the text: a character the text lacks is in no group. */
  lemma {:induction false} MatchGroupsAvoid(s: string, i: nat, pat: Pat, c: char)
    requires i <= |s| && Match(s, i, pat).Some? && c !in s
    ensures forall n :: 0 <= n < |Match(s, i, pat).value.groups| ==> c !in Match(s, i, pat).value.groups[n]
    decreases pat, 1
  {
    match pat
    case Done =>
    case Then(Lit(t), rest) =>
      MatchGroupsAvoid(s, i + |t|, rest, c);
    case Then(x, rest) =>
      BacktrackGroupsAvoid(s, i, RunEnd(s, i, x.k), pat, c);
  }

  lemma {:induction false} BacktrackGroupsAvoid(s: string, i: nat, j: nat, pat: Pat, c: char)
    requires pat.Then? && !pat.item.Lit?
    requires i <= j <= |s| && Backtrack(s, i, j, pat).Some? && c !in s
    ensures forall n :: 0 <= n < |Backtrack(s, i, j, pat).value.groups| ==> c !in Backtrack(s, i, j, pat).value.groups[n]
    decreases pat, 0, j - i
  {
    if Match(s, j, pat.next).Some? {
      MatchGroupsAvoid(s, j, pat.next, c);
      if pat.item.Group? {
        forall m | 0 <= m < j - i ensures s[i..j][m] != c {
          assert s[i..j][m] == s[i + m];
        }
      }
    } else {
      BacktrackGroupsAvoid(s, i, j - 1, pat, c);
    }
  }

  /** A match spans at least the literals of its pattern. */
  lemma {:induction false} MatchLength(s: string, i: nat, pat: Pat)
    requires i <= |s| && Match(s, i, pat).Some?
    ensures i + LitLength(pat) <= Match(s, i, pat).value.end
    decreases pat, 1
  {
    match pat
    case Done =>
    case Then(Lit(t), rest) =>
      MatchLength(s, i + |t|, rest);
    case Then(x, rest) =>
      BacktrackLength(s, i, RunEnd(s, i, x.k), pat);
  }

  lemma {:induction false} BacktrackLength(s: string, i: nat, j: nat, pat: Pat)
    requires pat.Then? && !pat.item.Lit?
    requires i <= j <= |s| && Backtrack(s, i, j, pat).Some?
    ensures i + LitLength(pat) <= Backtrack(s, i, j, pat).value.end
    decreases pat, 0, j - i
  {
    if Match(s, j, pat.next).Some? {
      MatchLength(s, j, pat.next);
    } else {
      BacktrackLength(s, i, j - 1, pat);
    }
  }

  /** A pattern that starts with a literal matches only where that literal stands. */
  lemma MatchStartsWith(s: string, i: nat, pat: Pat)
    requires i <= |s| && Match(s, i, pat).Some? && pat.Then? && pat.item.Lit?
    ensures LiteralAt(s, i, pat.item.text) && i + |pat.item.text| <= Match(s, i, pat).value.end
  {
  }

  /** A pattern that ends with a literal leaves that literal just before the end of its match. */
  lemma MatchEndsWith(s: string, i: nat, pat: Pat, t: string)
    requires i <= |s| && Match(s, i, pat).Some? && EndsWithLit(pat, t)
    ensures var e := Match(s, i, pat).value.end; i + |t| <= e && LiteralAt(s, e - |t|, t)
  {
    MatchSound(s, i, pat);
    DerivesEndsWith(s, i, pat, Match(s, i, pat).value.end, t);
  }

  /** Any derivation of a pattern that ends with a literal ends with that literal. */
  lemma {:induction false} DerivesEndsWith(s: string, i: nat, pat: Pat, e: nat, t: string)
    requires Derives(s, i, pat, e) && EndsWithLit(pat, t)
    ensures i + |t| <= e && LiteralAt(s, e - |t|, t)
    decreases pat
  {
    match pat
    case Then(Lit(t'), rest) =>
      if !rest.Done? {
        DerivesEndsWith(s, i + |t'|, rest, e, t);
      }
    case Then(x, rest) =>
      if rest.Done? {
        assert false;
      } else {
        var j :| i <= j <= e && AllIn(s, i, j, x.k) && Derives(s, j, rest, e);
        DerivesEndsWith(s, j, rest, e, t);
      }
  }

  // ---------------------------------------------------------------------------
  // Searching: String.prototype.match, and the global flag of replace
  // ---------------------------------------------------------------------------

  /** The pattern starts with a non-empty literal, so none of its matches is empty. */
  predicate Anchored(pat: Pat) {
    pat.Then? && pat.item.Lit? && |pat.item.text| > 0
  }

  /** A match found by a search: the span `s[start..end]` and its groups. */
  datatype Found = Found(start: nat, end: nat, groups: seq<string>)

  /** `f` is the match of `pat` that starts at `f.start`. */
  predicate FoundAt(s: string, pat: Pat, f: Found)
    requires f.start <= |s|
  {
    Match(s, f.start, pat) == Some(Scan(f.end, f.groups))
  }

  /** The leftmost match of `pat` that starts at or after `from`. */
  function FindFirst(s: string, pat: Pat, from: nat): (r: Option<Found>)
    requires Anchored(pat) && from <= |s|
    ensures r.Some? ==> from <= r.value.start < r.value.end <= |s| && FoundAt(s, pat, r.value)
    decreases |s| - from
  {
    match Match(s, from, pat)
    case Some(m) =>
      MatchStartsWith(s, from, pat);
      Some(Found(from, m.end, m.groups))
    case None =>
      if from == |s| then None else FindFirst(s, pat, from + 1)
  }

  /** No match starts between `from` and the one the search reports, nor anywhere if it reports none. */
  lemma {:induction false} FindFirstLeftmost(s: string, pat: Pat, from: nat, p: nat)
    requires Anchored(pat) && from <= p <= |s|
    requires FindFirst(s, pat, from).Some? ==> p < FindFirst(s, pat, from).value.start
    ensures Match(s, p, pat).None?
    decreases |s| - from
  {
    if p > from {
      FindFirstLeftmost(s, pat, from + 1, p);
    }
  }

  /** The search reports the match at `p` when there is none between `from` and `p`. */
  lemma {:induction false} FindFirstAt(s: string, pat: Pat, from: nat, p: nat)
    requires Anchored(pat) && from <= p <= |s| && Match(s, p, pat).Some?
    requires forall r :: from <= r < p ==> Match(s, r, pat).None?
    ensures FindFirst(s, pat, from) == Some(Found(p, Match(s, p, pat).value.end, Match(s, p, pat).value.groups))
    decreases p - from
  {
    if from < p {
      FindFirstAt(s, pat, from + 1, p);
    }
  }

  /** Every match a global search visits: each one the leftmost after the end of the one before. */
  function FindAll(s: string, pat: Pat, from: nat): (fs: seq<Found>)
    requires Anchored(pat) && from <= |s|
    ensures Spans(s, from, fs)
    decreases |s| - from
  {
    match FindFirst(s, pat, from)
    case None => []
    case Some(f) => [f] + FindAll(s, pat, f.end)
  }

  /** `fs` are spans of `s`, in order and not overlapping, none of them before `from`. */
  predicate Spans(s: string, from: nat, fs: seq<Found>)
    decreases |fs|
  {
    from <= |s| && (fs == [] || (from <= fs[0].start <= fs[0].end <= |s| && Spans(s, fs[0].end, fs[1..])))
  }

  /** The replacement a callback gives for the found span `f`. */
  function Replacement(s: string, f: Found, cb: (string, seq<string>) -> string): string
    requires f.start <= f.end <= |s|
  {
    cb(s[f.start..f.end], f.groups)
  }

  /** `s` from `from` on, with each span of `fs` replaced by what the callback returns for it. */
  function Splice(s: string, from: nat, fs: seq<Found>, cb: (string, seq<string>) -> string): string
    requires Spans(s, from, fs)
    decreases |fs|
  {
    if fs == [] then s[from..]
    else s[from..fs[0].start] + Replacement(s, fs[0], cb) + Splice(s, fs[0].end, fs[1..], cb)
  }

  /** `s.replace(pat, cb)` for a global `pat`: every match the search visits, replaced. */
  function ReplaceAll(s: string, pat: Pat, cb: (string, seq<string>) -> string): (r: string)
    requires Anchored(pat)
    ensures FindAll(s, pat, 0) == [] ==> r == s
  {
    Splice(s, 0, FindAll(s, pat, 0), cb)
  }

  /** The search takes the leftmost match and goes on from where it ends. */
  lemma FindAllStep(s: string, pat: Pat, from: nat, f: Found)
    requires Anchored(pat) && from <= |s| && FindFirst(s, pat, from) == Some(f)
    ensures FindAll(s, pat, from) == [f] + FindAll(s, pat, f.end)
    ensures from < f.end <= |s| && |f.groups| == |Groups(pat)|
  {
  }

  /** A global search reports true matches, left to right. */
  lemma {:induction false} FindAllFound(s: string, pat: Pat, from: nat)
    requires Anchored(pat) && from <= |s|
    ensures forall i :: 0 <= i < |FindAll(s, pat, from)| ==>
      from <= FindAll(s, pat, from)[i].start < |s| && FoundAt(s, pat, FindAll(s, pat, from)[i])
    decreases |s| - from
  {
    match FindFirst(s, pat, from)
    case None =>
    case Some(f) =>
      FindAllFound(s, pat, f.end);
      var rest := FindAll(s, pat, f.end);
      var fs := FindAll(s, pat, from);
      assert fs == [f] + rest;
  }

  /** A global search passes over no match except those inside a span it has already taken. */
  lemma {:induction false} FindAllComplete(s: string, pat: Pat, from: nat, p: nat)
    requires Anchored(pat) && from <= p <= |s| && Match(s, p, pat).Some?
    ensures exists i ::
              0 <= i < |FindAll(s, pat, from)| &&
              FindAll(s, pat, from)[i].start <= p < FindAll(s, pat, from)[i].end
    decreases |s| - from
  {
    var fs := FindAll(s, pat, from);
    if FindFirst(s, pat, from).None? || p < FindFirst(s, pat, from).value.start {
      FindFirstLeftmost(s, pat, from, p);
    } else {
      var f := FindFirst(s, pat, from).value;
      var rest := FindAll(s, pat, f.end);
      assert fs == [f] + rest;
      if f.end <= p {
        FindAllComplete(s, pat, f.end, p);
        var i :| 0 <= i < |rest| && rest[i].start <= p < rest[i].end;
        assert fs[i + 1] == rest[i];
      } else {
        assert fs[0].start <= p < fs[0].end;
      }
    }
  }

  /** Replacing every span by its own text gives the text back. */
  lemma {:induction false} SpliceIdentity(s: string, from: nat, fs: seq<Found>, cb: (string, seq<string>) -> string)
    requires Spans(s, from, fs)
    requires forall i :: 0 <= i < |fs| && fs[i].start <= fs[i].end <= |s| ==>
      Replacement(s, fs[i], cb) == s[fs[i].start..fs[i].end]
    ensures Splice(s, from, fs, cb) == s[from..]
    decreases |fs|
  {
    if fs != [] {
      SpansBounded(s, from, fs);
      forall i | 0 <= i < |fs[1..]| && fs[1..][i].start <= fs[1..][i].end <= |s|
        ensures Replacement(s, fs[1..][i], cb) == s[fs[1..][i].start..fs[1..][i].end]
      {
        assert fs[1..][i] == fs[i + 1];
      }
      SpliceIdentity(s, fs[0].end, fs[1..], cb);
      assert s[from..] == s[from..fs[0].start] + s[fs[0].start..fs[0].end] + s[fs[0].end..];
    }
  }

  /** Spans lie inside the text. */
  lemma {:induction false} SpansBounded(s: string, from: nat, fs: seq<Found>)
    requires Spans(s, from, fs)
    ensures forall i :: 0 <= i < |fs| ==> from <= fs[i].start <= fs[i].end <= |s|
    decreases |fs|
  {
    if fs != [] {
      SpansBounded(s, fs[0].end, fs[1..]);
      forall i | 0 < i < |fs| ensures from <= fs[i].start <= fs[i].end <= |s| {
        assert fs[i] == fs[1..][i - 1];
      }
    }
  }

  /** Spans come in order: each ends no later than any later one starts. */
  lemma {:induction false} SpansOrdered(s: string, from: nat, fs: seq<Found>)
    requires Spans(s, from, fs)
    ensures forall i, j :: 0 <= i < j < |fs| ==> fs[i].end <= fs[j].start
    decreases |fs|
  {
    if fs != [] {
      var tail := fs[1..];
      SpansOrdered(s, fs[0].end, tail);
      SpansBounded(s, fs[0].end, tail);
      forall i, j | 0 <= i < j < |fs| ensures fs[i].end <= fs[j].start {
        assert fs[j] == tail[j - 1];
        if i > 0 { assert fs[i] == tail[i - 1]; }
      }
    }
  }

  /**
   * When no replacement is longer than what it replaces, the result is no longer than the
   * text, and it is exactly as long only when every replacement is as long as its span.
   */
  lemma {:induction false} SpliceLength(s: string, from: nat, fs: seq<Found>, cb: (string, seq<string>) -> string)
    requires Spans(s, from, fs)
    requires forall i :: 0 <= i < |fs| && fs[i].start <= fs[i].end <= |s| ==>
      |Replacement(s, fs[i], cb)| <= fs[i].end - fs[i].start
    ensures |Splice(s, from, fs, cb)| <= |s| - from
    ensures |Splice(s, from, fs, cb)| == |s| - from <==>
      forall i :: 0 <= i < |fs| && fs[i].start <= fs[i].end <= |s| ==>
        |Replacement(s, fs[i], cb)| == fs[i].end - fs[i].start
    decreases |fs|
  {
    if fs != [] {
      SpansBounded(s, from, fs);
      var tail := fs[1..];
      forall i | 0 <= i < |tail| && tail[i].start <= tail[i].end <= |s|
        ensures |Replacement(s, tail[i], cb)| <= tail[i].end - tail[i].start
      {
        assert tail[i] == fs[i + 1];
      }
      SpliceLength(s, fs[0].end, tail, cb);
      var same := forall i :: 0 <= i < |fs| && fs[i].start <= fs[i].end <= |s| ==>
        |Replacement(s, fs[i], cb)| == fs[i].end - fs[i].start;
      var sameTail := forall i :: 0 <= i < |tail| && tail[i].start <= tail[i].end <= |s| ==>
        |Replacement(s, tail[i], cb)| == tail[i].end - tail[i].start;
      if sameTail && |Replacement(s, fs[0], cb)| == fs[0].end - fs[0].start {
        forall i | 0 <= i < |fs| && fs[i].start <= fs[i].end <= |s|
          ensures |Replacement(s, fs[i], cb)| == fs[i].end - fs[i].start
        {
          if i > 0 { assert fs[i] == tail[i - 1]; }
        }
      }
      if same {
        forall i | 0 <= i < |tail| && tail[i].start <= tail[i].end <= |s|
          ensures |Replacement(s, tail[i], cb)| == tail[i].end - tail[i].start
        {
          assert tail[i] == fs[i + 1];
        }
      }
    }
  }

  /**
   * The replacement of `f` leaves the text before `k` as it was: it is the span itself,
   * or the span starts just before `k` and its replacement begins with the same character.
   */
  predicate KeepsBefore(s: string, f: Found, cb: (string, seq<string>) -> string, k: nat)
    requires f.start <= f.end <= |s|
  {
    Replacement(s, f, cb) == s[f.start..f.end] ||
    (f.start + 1 == k && f.start < f.end && |Replacement(s, f, cb)| > 0 && Replacement(s, f, cb)[0] == s[f.start])
  }

  /** The text before `k` is kept when every span the callback changes starts at `k` or later, except
      possibly one span starting at `k - 1` whose replacement begins with the character it replaces. */
  lemma {:induction false} SplicePrefix(s: string, from: nat, fs: seq<Found>, cb: (string, seq<string>) -> string, k: nat)
    requires Spans(s, from, fs) && from <= k <= |s|
    requires forall i :: 0 <= i < |fs| && fs[i].start < k && fs[i].start <= fs[i].end <= |s| ==> KeepsBefore(s, fs[i], cb, k)
    ensures k - from <= |Splice(s, from, fs, cb)|
    ensures Splice(s, from, fs, cb)[..k - from] == s[from..k]
    decreases |fs|
  {
    if fs != [] {
      var f := fs[0];
      var tail := fs[1..];
      var rest := Splice(s, f.end, tail, cb);
      var w := Replacement(s, f, cb);
      var r := Splice(s, from, fs, cb);
      assert r == s[from..f.start] + w + rest;
      if k <= f.start || w != s[f.start..f.end] || k <= f.end {
        SpliceHead(s, from, f, w, rest, r, k);
      } else {
        forall i | 0 <= i < |tail| && tail[i].start < k && tail[i].start <= tail[i].end <= |s|
          ensures KeepsBefore(s, tail[i], cb, k)
        {
          assert tail[i] == fs[i + 1];
        }
        SplicePrefix(s, f.end, tail, cb, k);
        SpliceHeadThrough(s, from, f, rest, r, k);
      }
    }
  }

  /** The prefix up to `k` when it ends before the first span, or inside it. */
  lemma SpliceHead(s: string, from: nat, f: Found, w: string, rest: string, r: string, k: nat)
    requires from <= f.start <= f.end <= |s| && from <= k <= |s|
    requires r == s[from..f.start] + w + rest
    requires k <= f.start || (w == s[f.start..f.end] && k <= f.end) || (f.start + 1 == k && |w| > 0 && w[0] == s[f.start])
    ensures k - from <= |r| && r[..k - from] == s[from..k]
  {
    if k <= f.start {
      PrefixOfConcat(s[from..f.start], w + rest, k - from);
      assert s[from..f.start][..k - from] == s[from..k];
      assert r == s[from..f.start] + (w + rest);
    } else if w == s[f.start..f.end] && k <= f.end {
      assert s[from..f.start] + s[f.start..f.end] == s[from..f.end];
      assert r == s[from..f.end] + rest;
      PrefixOfConcat(s[from..f.end], rest, k - from);
      assert s[from..f.end][..k - from] == s[from..k];
    } else {
      KeepFirst(s[from..f.start], w, rest, s[f.start]);
      assert s[from..k] == s[from..f.start] + [s[f.start]];
    }
  }

  /** The prefix up to `k` past a span left as it is, from the prefix of what follows it. */
  lemma SpliceHeadThrough(s: string, from: nat, f: Found, rest: string, r: string, k: nat)
    requires from <= f.start <= f.end < k <= |s|
    requires r == s[from..f.start] + s[f.start..f.end] + rest
    requires k - f.end <= |rest| && rest[..k - f.end] == s[f.end..k]
    ensures k - from <= |r| && r[..k - from] == s[from..k]
  {
    assert s[from..f.start] + s[f.start..f.end] == s[from..f.end];
    assert r == s[from..f.end] + rest;
    assert r[..k - from] == s[from..f.end] + rest[..k - f.end];
    assert s[from..k] == s[from..f.end] + s[f.end..k];
  }

  /** A replacement that starts with `x` keeps `x` right after the text before it. */
  lemma KeepFirst(a: string, w: string, rest: string, x: char)
    requires |w| > 0 && w[0] == x
    ensures |a| + 1 <= |a + w + rest| && (a + w + rest)[..|a| + 1] == a + [x]
  {
    assert a + w + rest == (a + [x]) + (w[1..] + rest);
  }

  /** The first `n` elements of `a + b`, when `a` has at least `n`, are those of `a`. */
  lemma PrefixOfConcat(a: string, b: string, n: nat)
    requires n <= |a|
    ensures (a + b)[..n] == a[..n]
  {
  }
}
