/**
 * read_config (routes/index.js:136-161): the default `proxy_pass` line, the
 * insertion anchor after it, and the map from client IP to upstream URL built
 * from the `if ( $remote_addr ~* IP ) { proxy_pass URL` blocks of the body with
 * its comments stripped.
 */
module Parser {
  import opened Wrappers
  import opened Text
  import opened Pattern

  // ---------------------------------------------------------------------------
  // The default line: body.match(/\n\s*proxy_pass\s*([^\s;]*)\s*;[^\n]*\n/)
  // ---------------------------------------------------------------------------

  const DefaultLine: Pat :=
    Then(Lit("\n"), Then(Star(Space), Then(Lit("proxy_pass"), Then(Star(Space),
    Then(Group(Token), Then(Star(Space), Then(Lit(";"), Then(Star(NonNewline),
    Then(Lit("\n"), Done)))))))))

  lemma DefaultLineGroups()
    ensures Anchored(DefaultLine) && Groups(DefaultLine) == [Token] && EndsWithLit(DefaultLine, "\n")
  {
  }

  /** A default match is a whole line: it starts and ends with a newline, and captures one token. */
  lemma DefaultShape(s: string, f: Found)
    requires f.start <= |s| && FoundAt(s, DefaultLine, f)
    ensures f.start < f.end <= |s| && s[f.start] == '\n' && s[f.end - 1] == '\n'
    ensures |f.groups| == 1 && Word(f.groups[0], Token)
  {
    DefaultLineGroups();
    MatchStartsWith(s, f.start, DefaultLine);
    MatchEndsWith(s, f.start, DefaultLine, "\n");
    MatchGroups(s, f.start, DefaultLine);
    assert s[f.end - 1] == s[f.end - 1..f.end][0];
  }

  // ---------------------------------------------------------------------------
  // Comments: body.replace(/#[^\n]*/g, '')
  // ---------------------------------------------------------------------------

  /**
   * What is left after a comment's `[^\n]*`: the text from the next newline on. Nothing
   * the comment swallows is a newline.
   */
  function SkipComment(s: string): (r: string)
    ensures |r| <= |s|
    ensures r == [] || r[0] == '\n'
    ensures forall i :: 0 <= i < |s| - |r| ==> s[i] != '\n'
  {
    if s == [] || s[0] == '\n' then s else SkipComment(s[1..])
  }

  /** What a comment leaves is the rest of the text, cut at the first newline. */
  lemma {:induction false} SkipCommentSuffix(s: string)
    ensures SkipComment(s) == s[|s| - |SkipComment(s)|..]
    decreases |s|
  {
    if s != [] && s[0] != '\n' {
      SkipCommentSuffix(s[1..]);
      assert s[1..][|s| - 1 - |SkipComment(s)|..] == s[|s| - |SkipComment(s)|..];
    }
  }

  /** The text with every comment (a `#` up to, not including, the end of its line) deleted. */
  function StripComments(s: string): (r: string)
    ensures |r| <= |s|
    ensures '#' !in r
    decreases |s|
  {
    if s == [] then []
    else if s[0] == '#' then StripComments(SkipComment(s[1..]))
    else [s[0]] + StripComments(s[1..])
  }

  lemma {:induction false} SkipCommentAppend(u: string, v: string)
    ensures SkipComment(u + v) == if '\n' in u then SkipComment(u) + v else SkipComment(v)
    decreases |u|
  {
    if u == [] {
      assert u + v == v;
    } else if u[0] == '\n' {
      assert (u + v)[0] == '\n';
    } else {
      assert (u + v)[1..] == u[1..] + v;
      SkipCommentAppend(u[1..], v);
      assert ('\n' in u) == ('\n' in u[1..]);
    }
  }

  /**
   * Comment text never reaches the rule scan: deleting a `#` comment that runs to the
   * end of its line leaves the stripped text unchanged, wherever the comment stands.
   */
  lemma {:induction false} CommentInvisible(x: string, c: string, y: string)
    requires '\n' !in c
    requires y == [] || y[0] == '\n'
    ensures StripComments(x + "#" + c + y) == StripComments(x + y)
    decreases |x|, 1
  {
    if x == [] {
      assert x + "#" + c + y == "#" + (c + y);
      assert x + y == y;
      SkipCommentAppend(c, y);
    } else if x[0] == '#' {
      assert (x + "#" + c + y)[1..] == x[1..] + ("#" + c + y);
      assert (x + y)[1..] == x[1..] + y;
      CommentInsideComment(x[1..], c, y);
    } else {
      assert (x + "#" + c + y)[1..] == x[1..] + "#" + c + y;
      assert (x + y)[1..] == x[1..] + y;
      CommentInvisible(x[1..], c, y);
    }
  }

  /** The same, when the comment to delete follows text that is itself inside a comment. */
  lemma {:induction false} CommentInsideComment(rest: string, c: string, y: string)
    requires '\n' !in c
    requires y == [] || y[0] == '\n'
    ensures StripComments(SkipComment(rest + ("#" + c + y))) == StripComments(SkipComment(rest + y))
    decreases |rest| + 1, 0
  {
    if '\n' in rest {
      var x' := SkipComment(rest);
      calc {
        StripComments(SkipComment(rest + ("#" + c + y)));
        { SkipCommentAppend(rest, "#" + c + y); CommentRegroup(x', c, y); }
        StripComments(x' + "#" + c + y);
        { CommentInvisible(x', c, y); }
        StripComments(x' + y);
        { SkipCommentAppend(rest, y); }
        StripComments(SkipComment(rest + y));
      }
    } else {
      SkipToLineEnd(rest, c, y);
    }
  }

  lemma CommentRegroup(x: string, c: string, y: string)
    ensures x + ("#" + c + y) == x + "#" + c + y
  {
  }

  lemma DropHash(c: string, y: string)
    ensures |"#" + c + y| > 0 && ("#" + c + y)[0] == '#' && ("#" + c + y)[1..] == c + y
  {
  }

  /** A comment on a line with no newline before `y` runs up to `y`, with or without a `#` in it. */
  lemma SkipToLineEnd(rest: string, c: string, y: string)
    requires '\n' !in rest && '\n' !in c
    requires y == [] || y[0] == '\n'
    ensures SkipComment(rest + ("#" + c + y)) == y && SkipComment(rest + y) == y
  {
    var h := "#" + c + y;
    assert SkipComment(y) == y;
    assert SkipComment(c + y) == y by {
      SkipCommentAppend(c, y);
    }
    assert SkipComment(h) == y by {
      DropHash(c, y);
    }
    assert SkipComment(rest + h) == SkipComment(h) by {
      SkipCommentAppend(rest, h);
    }
    assert SkipComment(rest + y) == y by {
      SkipCommentAppend(rest, y);
    }
  }

  /** Text without a `#` is left exactly as it is. */
  lemma {:induction false} StripWithoutComments(s: string)
    requires '#' !in s
    ensures StripComments(s) == s
    decreases |s|
  {
    if s != [] {
      assert s == [s[0]] + s[1..];
      StripWithoutComments(s[1..]);
    }
  }

  // ---------------------------------------------------------------------------
  // Rule blocks: no_comments.replace(IP_REGEX, (match, ip, url) => ...)
  // ---------------------------------------------------------------------------

  /** /if\s*\(\s*\$remote_addr\s*\~\*\s*([^\s]*)\s*\)\s*\{\s*proxy_pass\s*([^\s;]*)/g */
  const RulePattern: Pat :=
    Then(Lit("if"), Then(Star(Space), Then(Lit("("), Then(Star(Space),
    Then(Lit("$remote_addr"), Then(Star(Space), Then(Lit("~*"), Then(Star(Space),
    Then(Group(NonSpace),
    Then(Star(Space), Then(Lit(")"), Then(Star(Space), Then(Lit("{"), Then(Star(Space),
    Then(Lit("proxy_pass"), Then(Star(Space), Then(Group(Token), Done)))))))))))))))))

  lemma RulePatternGroups()
    ensures Anchored(RulePattern) && Groups(RulePattern) == [NonSpace, Token]
  {
    var tail := RulePattern.next.next.next.next.next.next.next.next.next;
    assert Groups(tail) == [Token];
    assert Groups(Then(Group(NonSpace), tail)) == [NonSpace, Token];
  }

  /** A rule match captures an IP, a run of non-space characters, and a URL token. */
  lemma RuleShape(s: string, f: Found)
    requires f.start <= |s| && FoundAt(s, RulePattern, f)
    ensures |f.groups| == 2 && Word(f.groups[0], NonSpace) && Word(f.groups[1], Token)
  {
    RulePatternGroups();
    MatchGroups(s, f.start, RulePattern);
  }

  /** Every match carries an IP and a URL. */
  predicate Pairs(fs: seq<Found>) {
    forall i :: 0 <= i < |fs| ==> |fs[i].groups| == 2
  }

  /** The matches of the rule pattern in `text` from `from` on, in the order the replace visits them. */
  function RuleMatches(text: string, from: nat): (fs: seq<Found>)
    requires from <= |text|
    ensures Pairs(fs)
  {
    RulePatternGroups();
    FindAllFound(text, RulePattern, from);
    FindAll(text, RulePattern, from)
  }

  /**
   * The callback `ret.ip_proxy_map[ip] = url` applied to each match in turn, starting from
   * `m`. No key is ever dropped, and the last match always has its say.
   */
  function Record(m: map<string, string>, fs: seq<Found>): (r: map<string, string>)
    requires Pairs(fs)
    ensures m.Keys <= r.Keys
    ensures fs != [] ==> fs[|fs| - 1].groups[0] in r && r[fs[|fs| - 1].groups[0]] == fs[|fs| - 1].groups[1]
    decreases |fs|
  {
    if fs == [] then m else Record(m[fs[0].groups[0] := fs[0].groups[1]], fs[1..])
  }

  /**
   * The map the callbacks build, starting from the empty `ip_proxy_map: {}`: its keys are
   * exactly the IPs the matches carry.
   */
  function MapOf(fs: seq<Found>): (r: map<string, string>)
    requires Pairs(fs)
    ensures r.Keys == set i | 0 <= i < |fs| :: fs[i].groups[0]
  {
    RecordKeySet(fs);
    Record(map[], fs)
  }

  /** The keys of the map, as a membership test. */
  lemma MapOfKeys(fs: seq<Found>)
    requires Pairs(fs)
    ensures forall ip :: ip in MapOf(fs) <==> exists i :: 0 <= i < |fs| && fs[i].groups[0] == ip
  {
    forall ip ensures ip in MapOf(fs) <==> exists i :: 0 <= i < |fs| && fs[i].groups[0] == ip {
      assert ip in MapOf(fs) <==> ip in (set i | 0 <= i < |fs| :: fs[i].groups[0]);
    }
  }

  lemma RecordKeySet(fs: seq<Found>)
    requires Pairs(fs)
    ensures Record(map[], fs).Keys == set i | 0 <= i < |fs| :: fs[i].groups[0]
  {
    forall ip ensures ip in Record(map[], fs) <==> exists i :: 0 <= i < |fs| && fs[i].groups[0] == ip {
      RecordKeys(map[], fs, ip);
    }
  }

  /** An IP ends up a key exactly when it was one already or some match carries it. */
  lemma {:induction false} RecordKeys(m: map<string, string>, fs: seq<Found>, ip: string)
    requires Pairs(fs)
    ensures ip in Record(m, fs) <==> ip in m || exists i :: 0 <= i < |fs| && fs[i].groups[0] == ip
    decreases |fs|
  {
    if fs != [] {
      RecordKeys(m[fs[0].groups[0] := fs[0].groups[1]], fs[1..], ip);
      if exists i :: 0 <= i < |fs[1..]| && fs[1..][i].groups[0] == ip {
        var i :| 0 <= i < |fs[1..]| && fs[1..][i].groups[0] == ip;
        assert fs[i + 1].groups[0] == ip;
      }
      if exists i :: 0 <= i < |fs| && fs[i].groups[0] == ip {
        var i :| 0 <= i < |fs| && fs[i].groups[0] == ip;
        if i > 0 { assert fs[1..][i - 1].groups[0] == ip; }
      }
    }
  }

  /** When several matches carry the same IP, the last one's URL is the one kept. */
  lemma {:induction false} RecordLastWins(m: map<string, string>, fs: seq<Found>, i: nat)
    requires Pairs(fs) && i < |fs|
    requires forall j :: i < j < |fs| ==> fs[j].groups[0] != fs[i].groups[0]
    ensures fs[i].groups[0] in Record(m, fs) && Record(m, fs)[fs[i].groups[0]] == fs[i].groups[1]
    decreases |fs|
  {
    if i == 0 {
      RecordKeeps(m[fs[0].groups[0] := fs[0].groups[1]], fs[1..], fs[0].groups[0]);
    } else {
      assert fs[1..][i - 1] == fs[i];
      RecordLastWins(m[fs[0].groups[0] := fs[0].groups[1]], fs[1..], i - 1);
    }
  }

  /** A key no later match carries keeps its value. */
  lemma {:induction false} RecordKeeps(m: map<string, string>, fs: seq<Found>, ip: string)
    requires Pairs(fs) && ip in m
    requires forall j :: 0 <= j < |fs| ==> fs[j].groups[0] != ip
    ensures ip in Record(m, fs) && Record(m, fs)[ip] == m[ip]
    decreases |fs|
  {
    if fs != [] {
      RecordKeeps(m[fs[0].groups[0] := fs[0].groups[1]], fs[1..], ip);
    }
  }

  /**
   * The replace-callback loop of read_config: search the comment-stripped text for
   * the rule pattern again and again, each time from where the last match ended,
   * and record each match in the map as it is found.
   */
  method CollectRules(text: string) returns (m: map<string, string>)
    ensures m == MapOf(RuleMatches(text, 0))
  {
    m := map[];
    var pos := 0;
    while true
      invariant pos <= |text|
      invariant Record(m, RuleMatches(text, pos)) == MapOf(RuleMatches(text, 0))
      decreases |text| - pos
    {
      var next := FindFirst(text, RulePattern, pos);
      if next.None? {
        break;
      }
      var f := next.value;
      RecordStep(text, pos, f, m);
      m := m[f.groups[0] := f.groups[1]];
      pos := f.end;
    }
  }

  /** One turn of the loop above: the leftmost match is recorded and the search moves past it. */
  lemma RecordStep(text: string, pos: nat, f: Found, m: map<string, string>)
    requires pos <= |text| && FindFirst(text, RulePattern, pos) == Some(f)
    ensures pos < f.end <= |text| && |f.groups| == 2
    ensures Record(m, RuleMatches(text, pos)) == Record(m[f.groups[0] := f.groups[1]], RuleMatches(text, f.end))
  {
    RulePatternGroups();
    FindAllStep(text, RulePattern, pos, f);
    assert ([f] + RuleMatches(text, f.end))[1..] == RuleMatches(text, f.end);
  }

  // ---------------------------------------------------------------------------
  // read_config's result
  // ---------------------------------------------------------------------------

  /** `ret` of read_config; `None` stands for the `false` it starts with. */
  datatype ParsedConfig = ParsedConfig(
    defaultProxy: Option<string>,
    insertIndex: Option<nat>,
    ipProxyMap: map<string, string>)

  /** The rule matches read_config records: those of the comment-stripped body. */
  function Rules(body: string): (fs: seq<Found>)
    ensures Pairs(fs)
  {
    RuleMatches(StripComments(body), 0)
  }

  /**
   * The rule scan runs on the text with comments stripped, so no IP it reports contains a
   * `#`: a client whose IP has one is never a key of the map, whatever the body.
   */
  lemma HashIpNeverKey(body: string, ip: string)
    requires '#' in ip
    ensures forall i :: 0 <= i < |Rules(body)| ==> Rules(body)[i].groups[0] != ip
  {
    var text := StripComments(body);
    var fs := Rules(body);
    RulePatternGroups();
    FindAllFound(text, RulePattern, 0);
    forall i | 0 <= i < |fs| ensures fs[i].groups[0] != ip {
      MatchGroupsAvoid(text, fs[i].start, RulePattern, '#');
    }
  }

  /**
   * What read_config reports for a body it could read. The default line is searched in
   * the body as it is; the rules in the body with comments stripped, whether or not a
   * default line was found.
   */
  function Parse(body: string): (cfg: ParsedConfig)
    ensures cfg.defaultProxy.Some? <==> cfg.insertIndex.Some?
    ensures cfg.insertIndex.Some? ==>
      0 < cfg.insertIndex.value <= |body| && body[cfg.insertIndex.value - 1] == '\n'
    ensures cfg.defaultProxy.Some? ==> Word(cfg.defaultProxy.value, Token)
    ensures forall ip :: ip in cfg.ipProxyMap <==> exists i :: 0 <= i < |Rules(body)| && Rules(body)[i].groups[0] == ip
  {
    DefaultLineGroups();
    var rules := MapOf(Rules(body));
    MapOfKeys(Rules(body));
    match FindFirst(body, DefaultLine, 0)
    case None => ParsedConfig(None, None, rules)
    case Some(f) =>
      DefaultShape(body, f);
      ParsedConfig(Some(f.groups[0]), Some(f.end), rules)
  }

  /** There is no default exactly when the default pattern occurs nowhere in the body. */
  lemma ParseDefaultAbsent(body: string)
    ensures Parse(body).defaultProxy.None? <==> forall p, e :: 0 <= p <= |body| ==> !Derives(body, p, DefaultLine, e)
  {
    DefaultLineGroups();
    match FindFirst(body, DefaultLine, 0)
    case None =>
      forall p, e | 0 <= p <= |body| ensures !Derives(body, p, DefaultLine, e) {
        DefaultNotBefore(body, p);
      }
    case Some(f) =>
      MatchMeaning(body, f.start, DefaultLine);
  }

  /**
   * When it is found, the default line is the leftmost one: its match starts before the
   * anchor, ends at the anchor and captures the default proxy, and none starts earlier.
   */
  lemma ParseDefaultFirst(body: string)
    requires Parse(body).defaultProxy.Some?
    ensures exists p ::
              0 <= p < Parse(body).insertIndex.value &&
              Derives(body, p, DefaultLine, Parse(body).insertIndex.value) &&
              Match(body, p, DefaultLine) == Some(Scan(Parse(body).insertIndex.value, [Parse(body).defaultProxy.value])) &&
              forall q, e :: 0 <= q < p ==> !Derives(body, q, DefaultLine, e)
  {
    DefaultLineGroups();
    var f := FindFirst(body, DefaultLine, 0).value;
    DefaultShape(body, f);
    MatchMeaning(body, f.start, DefaultLine);
    forall q, e | 0 <= q < f.start ensures !Derives(body, q, DefaultLine, e) {
      DefaultNotBefore(body, q);
    }
    assert f.groups == [f.groups[0]];
  }

  /** No default line can be read before the first one the search finds. */
  lemma DefaultNotBefore(body: string, p: nat)
    requires p <= |body|
    requires FindFirst(body, DefaultLine, 0).Some? ==> p < FindFirst(body, DefaultLine, 0).value.start
    ensures forall e :: !Derives(body, p, DefaultLine, e)
  {
    DefaultLineGroups();
    FindFirstLeftmost(body, DefaultLine, 0, p);
    MatchMeaning(body, p, DefaultLine);
  }

  /** When several rule blocks name the same IP, the map keeps the URL of the last one. */
  lemma ParseLastWins(body: string, i: nat)
    requires i < |Rules(body)|
    requires forall j :: i < j < |Rules(body)| ==> Rules(body)[j].groups[0] != Rules(body)[i].groups[0]
    ensures Rules(body)[i].groups[0] in Parse(body).ipProxyMap
    ensures Parse(body).ipProxyMap[Rules(body)[i].groups[0]] == Rules(body)[i].groups[1]
  {
    assert Parse(body).ipProxyMap == MapOf(Rules(body));
    RecordLastWins(map[], Rules(body), i);
  }

  /** A `#` comment running to the end of its line adds no rule and changes none. */
  lemma ParseIgnoresComment(x: string, c: string, y: string)
    requires '\n' !in c
    requires y == [] || y[0] == '\n'
    ensures Rules(x + "#" + c + y) == Rules(x + y)
    ensures Parse(x + "#" + c + y).ipProxyMap == Parse(x + y).ipProxyMap
  {
    CommentInvisible(x, c, y);
    assert Parse(x + "#" + c + y).ipProxyMap == MapOf(Rules(x + "#" + c + y));
    assert Parse(x + y).ipProxyMap == MapOf(Rules(x + y));
  }
}
