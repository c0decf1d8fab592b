/**
 * add_proxy and remove_proxy (routes/index.js:163-185): splicing a rule block
 * into the config text, and deleting the rule blocks of one client IP with a
 * global regular-expression replace.
 */
module Editor {
  import opened Wrappers
  import opened Text
  import opened Pattern

  // ---------------------------------------------------------------------------
  // add_proxy
  // ---------------------------------------------------------------------------

  /** The block add_proxy writes for one client IP. */
  function RuleBlock(ip: string, url: string): (r: string)
    ensures |r| == 43 + |ip| + |url| && r[0] == '\n' && r[|r| - 2..] == "}\n"
  {
    "\nif ( $remote_addr ~* " + ip + " ) {\n" + " proxy_pass " + url + ";\n" + "}\n"
  }

  /**
   * Where `body.slice(0, insert_index)` cuts: `insert_index` is `false` (here `None`)
   * when read_config found no default line, which slices as 0; an index past the end
   * of the text slices the whole text.
   */
  function SliceOffset(body: string, anchor: Option<nat>): (k: nat)
    ensures k <= |body|
    ensures anchor.None? ==> k == 0
    ensures anchor.Some? && anchor.value <= |body| ==> k == anchor.value
    ensures anchor.Some? && anchor.value > |body| ==> k == |body|
  {
    match anchor
    case None => 0
    case Some(i) => if i <= |body| then i else |body|
  }

  /** add_proxy: the rule block spliced in at the anchor. */
  function AddProxy(ip: string, url: string, body: string, anchor: Option<nat>): (r: string)
    ensures |r| == |body| + |RuleBlock(ip, url)|
    ensures r[..SliceOffset(body, anchor)] == body[..SliceOffset(body, anchor)]
    ensures r[SliceOffset(body, anchor)..SliceOffset(body, anchor) + |RuleBlock(ip, url)|] == RuleBlock(ip, url)
    ensures r[SliceOffset(body, anchor) + |RuleBlock(ip, url)|..] == body[SliceOffset(body, anchor)..]
  {
    var k := SliceOffset(body, anchor);
    var r := body[..k] + RuleBlock(ip, url) + body[k..];
    assert r[..k] == body[..k];
    assert r[k..k + |RuleBlock(ip, url)|] == RuleBlock(ip, url);
    assert r[k + |RuleBlock(ip, url)|..] == body[k..];
    r
  }

  // ---------------------------------------------------------------------------
  // remove_proxy
  // ---------------------------------------------------------------------------

  /**
   * REMOVE_REGEX: a whole rule block with the newline before it and the rest of the
   * line of its closing brace, /\n\s*if ... proxy_pass\s*([^\s;]*)\s*;[^\}]*\}[^\n]*\n/g.
   */
  const RemovePattern: Pat :=
    Then(Lit("\n"), Then(Star(Space),
    Then(Lit("if"), Then(Star(Space), Then(Lit("("), Then(Star(Space),
    Then(Lit("$remote_addr"), Then(Star(Space), Then(Lit("~*"), Then(Star(Space),
    Then(Group(NonSpace),
    Then(Star(Space), Then(Lit(")"), Then(Star(Space), Then(Lit("{"), Then(Star(Space),
    Then(Lit("proxy_pass"), Then(Star(Space), Then(Group(Token),
    Then(Star(Space), Then(Lit(";"), Then(Star(NonBrace), Then(Lit("}"), Then(Star(NonNewline),
    Then(Lit("\n"), Done)))))))))))))))))))))))))

  lemma RemovePatternFacts()
    ensures Anchored(RemovePattern) && LitLength(RemovePattern) == 33
    ensures Groups(RemovePattern) == [NonSpace, Token]
    ensures EndsWithLit(RemovePattern, "\n")
  {
    var p10 := RemovePattern.next.next.next.next.next.next.next.next.next.next;
    var p20 := p10.next.next.next.next.next.next.next.next.next.next;
    assert LitLength(p20) == 3;
    assert LitLength(p10) == 15;
    assert Groups(p10.next) == [Token];
    assert EndsWithLit(p20, "\n");
    assert EndsWithLit(p10, "\n");
  }

  /** The replace callback: a block whose captured IP is `ip` becomes one newline, any other stays. */
  function RemoveCallback(ip: string): (string, seq<string>) -> string {
    (full: string, groups: seq<string>) => if |groups| > 0 && groups[0] == ip then "\n" else full
  }

  /** The rule blocks the replace visits, left to right. */
  function Blocks(body: string): seq<Found> {
    RemovePatternFacts();
    FindAll(body, RemovePattern, 0)
  }

  /**
   * remove_proxy. The text never grows; it shrinks exactly when some block carries `ip`,
   * and otherwise comes back unchanged.
   */
  function RemoveProxy(ip: string, body: string): (r: string)
    ensures |r| <= |body|
    ensures |r| < |body| <==> HasBlock(body, ip)
    ensures !HasBlock(body, ip) ==> r == body
  {
    RemovePatternFacts();
    ReplaceBlocks(ip, body);
    ReplaceAll(body, RemovePattern, RemoveCallback(ip))
  }

  /** Some block the replace visits carries `ip`. */
  predicate HasBlock(body: string, ip: string) {
    exists i :: 0 <= i < |Blocks(body)| && |Blocks(body)[i].groups| > 0 && Blocks(body)[i].groups[0] == ip
  }

  /** Each block the replace visits spans more than a newline. */
  lemma BlocksLong(body: string)
    ensures Spans(body, 0, Blocks(body))
    ensures forall i :: 0 <= i < |Blocks(body)| ==> Blocks(body)[i].start + 33 <= Blocks(body)[i].end
  {
    RemovePatternFacts();
    var fs := Blocks(body);
    FindAllFound(body, RemovePattern, 0);
    forall i | 0 <= i < |fs| ensures fs[i].start + 33 <= fs[i].end {
      MatchLength(body, fs[i].start, RemovePattern);
    }
  }

  /**
   * A block the replace visits runs from a newline to a newline and captures a
   * whitespace-free IP and a URL token.
   */
  lemma BlockShape(body: string, f: Found)
    requires f.start <= |body| && FoundAt(body, RemovePattern, f)
    ensures f.start + 33 <= f.end <= |body| && body[f.start] == '\n' && body[f.end - 1] == '\n'
    ensures |f.groups| == 2 && Word(f.groups[0], NonSpace) && Word(f.groups[1], Token)
  {
    RemovePatternFacts();
    MatchStartsWith(body, f.start, RemovePattern);
    MatchEndsWith(body, f.start, RemovePattern, "\n");
    MatchLength(body, f.start, RemovePattern);
    MatchGroups(body, f.start, RemovePattern);
    assert body[f.end - 1] == body[f.end - 1..f.end][0];
  }

  /**
   * A match takes the newline that ends its block with it, and every block starts with a
   * newline of its own: a block right after another one, with a single newline between
   * them, is passed over.
   */
  lemma BlocksSeparate(body: string)
    ensures forall i :: 0 <= i < |Blocks(body)| ==>
      Blocks(body)[i].start < Blocks(body)[i].end <= |body| &&
      body[Blocks(body)[i].start] == '\n' && body[Blocks(body)[i].end - 1] == '\n'
    ensures forall i, j :: 0 <= i < j < |Blocks(body)| ==> Blocks(body)[i].end <= Blocks(body)[j].start
  {
    RemovePatternFacts();
    var fs := Blocks(body);
    FindAllFound(body, RemovePattern, 0);
    SpansOrdered(body, 0, fs);
    forall i | 0 <= i < |fs| ensures fs[i].start < fs[i].end <= |body| && body[fs[i].start] == '\n' && body[fs[i].end - 1] == '\n' {
      BlockShape(body, fs[i]);
    }
  }

  /**
   * A block written right after another, its leading newline being the other's trailing
   * one, would start one before where the other ends: no block the replace visits starts
   * there, so such a block is never removed.
   */
  lemma AdjacentBlockSkipped(body: string, i: nat)
    requires i < |Blocks(body)|
    ensures forall j :: 0 <= j < |Blocks(body)| ==> Blocks(body)[j].start != Blocks(body)[i].end - 1
  {
    var fs := Blocks(body);
    BlocksSeparate(body);
    BlocksLong(body);
    forall j | 0 <= j < |fs| ensures fs[j].start != fs[i].end - 1 {
      if j < i {
        assert fs[j].end <= fs[i].start;
      } else if j > i {
        assert fs[i].end <= fs[j].start;
      }
    }
  }

  /**
   * Every replacement is either the block itself or a single newline in place of a
   * longer block, so the replace never lengthens the text.
   */
  lemma ReplaceBlocks(ip: string, body: string)
    requires Anchored(RemovePattern)
    ensures |ReplaceAll(body, RemovePattern, RemoveCallback(ip))| <= |body|
    ensures |ReplaceAll(body, RemovePattern, RemoveCallback(ip))| < |body| <==> HasBlock(body, ip)
    ensures !HasBlock(body, ip) ==> ReplaceAll(body, RemovePattern, RemoveCallback(ip)) == body
  {
    BlocksLong(body);
    var fs := Blocks(body);
    var cb := RemoveCallback(ip);
    SpansBounded(body, 0, fs);
    SpliceLength(body, 0, fs, cb);
    if HasBlock(body, ip) {
      var i :| 0 <= i < |fs| && |fs[i].groups| > 0 && fs[i].groups[0] == ip;
      assert |Replacement(body, fs[i], cb)| == 1;
    } else {
      SpliceIdentity(body, 0, fs, cb);
    }
  }

  /**
   * What happens to each block: one that carries `ip` is replaced by a newline, any
   * other is put back verbatim; the text between blocks is kept as it is.
   */
  lemma RemoveEach(ip: string, body: string, i: nat)
    requires i < |Blocks(body)|
    ensures Spans(body, 0, Blocks(body))
    ensures Blocks(body)[i].start <= Blocks(body)[i].end <= |body|
    ensures |Blocks(body)[i].groups| == 2
    ensures Blocks(body)[i].groups[0] == ip ==> Replacement(body, Blocks(body)[i], RemoveCallback(ip)) == "\n"
    ensures Blocks(body)[i].groups[0] != ip ==>
      Replacement(body, Blocks(body)[i], RemoveCallback(ip)) == body[Blocks(body)[i].start..Blocks(body)[i].end]
    ensures RemoveProxy(ip, body) == Splice(body, 0, Blocks(body), RemoveCallback(ip))
  {
    BlocksLong(body);
    SpansBounded(body, 0, Blocks(body));
    RemovePatternFacts();
    FindAllFound(body, RemovePattern, 0);
  }

  /**
   * Text before `k` survives the removal when no block carrying `ip` starts before `k - 1`:
   * a block starting at `k - 1` begins with the newline it is replaced by. In particular
   * the removal leaves at least `k` characters.
   */
  lemma RemoveKeepsPrefix(ip: string, body: string, k: nat)
    requires k <= |body|
    requires forall i :: 0 <= i < |Blocks(body)| && |Blocks(body)[i].groups| > 0 && Blocks(body)[i].groups[0] == ip ==>
      k <= Blocks(body)[i].start + 1
    ensures k <= |RemoveProxy(ip, body)| && RemoveProxy(ip, body)[..k] == body[..k]
  {
    BlocksLong(body);
    BlocksSeparate(body);
    var fs := Blocks(body);
    var cb := RemoveCallback(ip);
    forall i | 0 <= i < |fs| && fs[i].start < k && fs[i].start <= fs[i].end <= |body|
      ensures KeepsBefore(body, fs[i], cb, k)
    {
      RemoveEach(ip, body, i);
    }
    SplicePrefix(body, 0, fs, cb, k);
  }
}
