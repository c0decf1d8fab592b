/**
 * The config file and the handlers that edit it (routes/index.js): read_config,
 * the guarded write-verify-reload-rollback transaction write_config, and the
 * body-building steps of set_proxy and clear_proxy.
 */
module Routes {
  import opened Wrappers
  import opened Text
  import opened Pattern
  import opened Parser
  import opened Editor

  // ---------------------------------------------------------------------------
  // The world write_config talks to
  // ---------------------------------------------------------------------------

  /** `config.verify_cmd` / `config.reload_cmd`: not configured, or how the command exited. */
  datatype Command = Unset | Exits(code: int)

  /** A configured command whose exit status is an error. */
  predicate Fails(c: Command) {
    c.Exits? && c.code != 0
  }

  /** The outcomes of the file and process operations of one write_config call. */
  datatype Environment = Environment(
    readOk: bool,      // fs.readFile of the config file
    writeOk: bool,     // fs.writeFile of the new body
    verify: Command,   // exec(config.verify_cmd)
    reload: Command,   // exec(config.reload_cmd)
    rollbackOk: bool,  // fs.writeFile of the old body, when there is a rollback
    debris: string)    // what a failed fs.writeFile leaves in the file

  /** The `err` write_config passes on; `None` is null. */
  datatype Error = Conflict | ReadFailed | WriteFailed | VerifyFailed | ReloadFailed

  /** What write_config did to the outside world, in order. */
  datatype Action = ReadFile | WriteFile(content: string) | RunVerify | RunReload

  // ---------------------------------------------------------------------------
  // What one transaction that gets past the guard does
  // ---------------------------------------------------------------------------

  /**
   * The first step that fails decides the error; later steps do not run. A transaction
   * past the guard never reports a conflict, a failed read is the only way to a read
   * error, and a reload error means the write went through and no verify failed.
   */
  function TxError(env: Environment): (r: Option<Error>)
    ensures r != Some(Conflict)
    ensures r == Some(ReadFailed) <==> !env.readOk
    ensures r == Some(ReloadFailed) ==> env.readOk && env.writeOk && !Fails(env.verify) && Fails(env.reload)
  {
    if !env.readOk then Some(ReadFailed)
    else if !env.writeOk then Some(WriteFailed)
    else if Fails(env.verify) then Some(VerifyFailed)
    else if Fails(env.reload) then Some(ReloadFailed)
    else None
  }

  /**
   * The old body is written back when a step after the read failed and the verify
   * command has not passed: a failed write, a failed verify, or, when no verify
   * command is configured, a failed reload. A rollback always comes with an error.
   */
  predicate RollsBack(env: Environment)
    ensures RollsBack(env) ==> env.readOk && TxError(env).Some?
  {
    env.readOk && (!env.writeOk || Fails(env.verify) || (env.verify.Unset? && Fails(env.reload)))
  }

  /** What a write of `content` leaves in the file. */
  function Written(content: string, ok: bool, env: Environment): string {
    if ok then content else env.debris
  }

  /**
   * The file after the transaction, from the file before it: the snapshot, the new body,
   * or what a failed write left.
   */
  function TxFile(before: string, newBody: string, env: Environment): (r: string)
    ensures r == before || r == newBody || r == env.debris
  {
    if !env.readOk then before
    else if RollsBack(env) then Written(before, env.rollbackOk, env)
    else Written(newBody, env.writeOk, env)
  }

  /**
   * The operations the transaction performs: it always starts by reading the file, and
   * after a successful read the next thing it does is write the new body.
   */
  function TxLog(before: string, newBody: string, env: Environment): (r: seq<Action>)
    ensures 1 <= |r| <= 5 && r[0] == ReadFile
    ensures |r| == 1 <==> !env.readOk
    ensures env.readOk ==> r[1] == WriteFile(newBody)
  {
    if !env.readOk then [ReadFile]
    else
      [ReadFile, WriteFile(newBody)]
      + (if env.writeOk && env.verify.Exits? then [RunVerify] else [])
      + (if env.writeOk && !Fails(env.verify) && env.reload.Exits? then [RunReload] else [])
      + (if RollsBack(env) then [WriteFile(before)] else [])
  }

  /** A failed read ends the transaction before anything is written. */
  lemma ReadFailure(before: string, newBody: string, env: Environment)
    requires !env.readOk
    ensures TxError(env) == Some(ReadFailed) && !RollsBack(env)
    ensures TxFile(before, newBody, env) == before && TxLog(before, newBody, env) == [ReadFile]
  {
  }

  /** A failed write is rolled back: need_rollback is set whether or not the write succeeded. */
  lemma WriteFailure(before: string, newBody: string, env: Environment)
    requires env.readOk && !env.writeOk
    ensures TxError(env) == Some(WriteFailed) && RollsBack(env)
    ensures TxFile(before, newBody, env) == Written(before, env.rollbackOk, env)
    ensures TxLog(before, newBody, env) == [ReadFile, WriteFile(newBody), WriteFile(before)]
  {
  }

  /** A failed verify skips the reload and restores the snapshot. */
  lemma VerifyFailure(before: string, newBody: string, env: Environment)
    requires env.readOk && env.writeOk && Fails(env.verify)
    ensures TxError(env) == Some(VerifyFailed) && RollsBack(env)
    ensures RunReload !in TxLog(before, newBody, env)
    ensures TxFile(before, newBody, env) == Written(before, env.rollbackOk, env)
    ensures env.rollbackOk ==> TxFile(before, newBody, env) == before
  {
  }

  /** Once the verify command passed, a failed reload keeps the new body. */
  lemma ReloadFailureAfterVerify(before: string, newBody: string, env: Environment)
    requires env.readOk && env.writeOk && env.verify == Exits(0) && Fails(env.reload)
    ensures TxError(env) == Some(ReloadFailed) && !RollsBack(env)
    ensures TxFile(before, newBody, env) == newBody
    ensures TxLog(before, newBody, env) == [ReadFile, WriteFile(newBody), RunVerify, RunReload]
  {
  }

  /** Without a verify command, need_rollback stays set and a failed reload rolls back. */
  lemma ReloadFailureWithoutVerify(before: string, newBody: string, env: Environment)
    requires env.readOk && env.writeOk && env.verify.Unset? && Fails(env.reload)
    ensures TxError(env) == Some(ReloadFailed) && RollsBack(env)
    ensures TxFile(before, newBody, env) == Written(before, env.rollbackOk, env)
    ensures TxLog(before, newBody, env) == [ReadFile, WriteFile(newBody), RunReload, WriteFile(before)]
  {
  }

  /** The transaction succeeds exactly when no step fails, and then the new body stays. */
  lemma Success(before: string, newBody: string, env: Environment)
    ensures TxError(env).None? <==> env.readOk && env.writeOk && !Fails(env.verify) && !Fails(env.reload)
    ensures TxError(env).None? ==> !RollsBack(env) && TxFile(before, newBody, env) == newBody
  {
  }

  /**
   * The rollback happens exactly when there is an error, the write was attempted, and it is
   * not the case that the write succeeded and the verify command passed.
   */
  lemma RollbackExactly(env: Environment)
    ensures RollsBack(env) <==>
      TxError(env).Some? && env.readOk && !(env.writeOk && env.verify == Exits(0))
  {
  }

  /**
   * With working writes the file ends as the snapshot or the new body, and the snapshot's
   * write is the last thing a rolled-back transaction does.
   */
  lemma OldOrNew(before: string, newBody: string, env: Environment)
    requires env.writeOk && env.rollbackOk
    ensures TxFile(before, newBody, env) == before || TxFile(before, newBody, env) == newBody
    ensures RollsBack(env) ==>
      TxFile(before, newBody, env) == before &&
      TxLog(before, newBody, env)[|TxLog(before, newBody, env)| - 1] == WriteFile(before)
  {
  }

  // ---------------------------------------------------------------------------
  // The body-building steps of set_proxy and clear_proxy
  // ---------------------------------------------------------------------------

  /**
   * set_proxy's new body: remove the IP's blocks when read_config saw the IP, then add
   * the new block at the anchor read_config computed on the body before the removal.
   * The body grows by exactly one block, unless read_config saw the client and the
   * removal found a block of it, in which case it grows by less.
   */
  function SetBody(ip: string, url: string, body: string, cfg: ParsedConfig): (r: string)
    ensures |r| <= |body| + |RuleBlock(ip, url)|
    ensures |r| < |body| + |RuleBlock(ip, url)| <==> ip in cfg.ipProxyMap && HasBlock(body, ip)
  {
    var base := if ip in cfg.ipProxyMap then RemoveProxy(ip, body) else body;
    AddProxy(ip, url, base, cfg.insertIndex)
  }

  /**
   * clear_proxy's new body: remove the IP's blocks when read_config saw the IP. It is
   * never longer than the file, and is the file itself exactly when read_config did not
   * see the client or the removal finds no block of it.
   */
  function ClearBody(ip: string, body: string, cfg: ParsedConfig): (r: string)
    ensures |r| <= |body|
    ensures r == body <==> ip !in cfg.ipProxyMap || !HasBlock(body, ip)
  {
    if ip in cfg.ipProxyMap then RemoveProxy(ip, body) else body
  }

  /**
   * Where set_proxy puts the block for a client read_config did not see: right after
   * the default line, on a fresh anchor.
   */
  lemma SetBodyAfterDefault(ip: string, url: string, body: string)
    requires Parse(body).insertIndex.Some? && ip !in Parse(body).ipProxyMap
    ensures 0 < Parse(body).insertIndex.value <= |body| && body[Parse(body).insertIndex.value - 1] == '\n'
    ensures SetBody(ip, url, body, Parse(body)) ==
      body[..Parse(body).insertIndex.value] + RuleBlock(ip, url) + body[Parse(body).insertIndex.value..]
  {
    var k := Parse(body).insertIndex.value;
    var r := SetBody(ip, url, body, Parse(body));
    assert r == AddProxy(ip, url, body, Parse(body).insertIndex);
    assert SliceOffset(body, Parse(body).insertIndex) == k;
    assert r == r[..k] + r[k..k + |RuleBlock(ip, url)|] + r[k + |RuleBlock(ip, url)|..];
  }

  /** Without a default line the anchor is `false`, which slices as 0: the block is prepended. */
  lemma SetBodyNoDefault(ip: string, url: string, body: string)
    requires Parse(body).insertIndex.None? && ip !in Parse(body).ipProxyMap
    ensures SetBody(ip, url, body, Parse(body)) == RuleBlock(ip, url) + body
  {
    var r := SetBody(ip, url, body, Parse(body));
    assert r == AddProxy(ip, url, body, None);
    assert r == r[..|RuleBlock(ip, url)|] + r[|RuleBlock(ip, url)|..];
  }

  /**
   * The anchor is computed before the client's old blocks are removed. It still points
   * just past the default line when none of those blocks starts before it, the usual
   * layout, where the first block after the default line starts on that line's own
   * newline, one before the anchor: everything up to the anchor is kept, and the new
   * block follows.
   */
  lemma SetBodyStaleAnchor(ip: string, url: string, body: string)
    requires Parse(body).insertIndex.Some?
    requires forall i :: 0 <= i < |Blocks(body)| && |Blocks(body)[i].groups| > 0 && Blocks(body)[i].groups[0] == ip ==>
      Parse(body).insertIndex.value <= Blocks(body)[i].start + 1
    ensures Parse(body).insertIndex.value + |RuleBlock(ip, url)| <= |SetBody(ip, url, body, Parse(body))|
    ensures SetBody(ip, url, body, Parse(body))[..Parse(body).insertIndex.value] == body[..Parse(body).insertIndex.value]
    ensures SetBody(ip, url, body, Parse(body))[Parse(body).insertIndex.value..Parse(body).insertIndex.value + |RuleBlock(ip, url)|]
      == RuleBlock(ip, url)
  {
    var cfg := Parse(body);
    var k := cfg.insertIndex.value;
    var base := if ip in cfg.ipProxyMap then RemoveProxy(ip, body) else body;
    assert k <= |base| && base[..k] == body[..k] by {
      if ip in cfg.ipProxyMap {
        RemoveKeepsPrefix(ip, body, k);
      }
    }
    assert SetBody(ip, url, body, cfg) == AddProxy(ip, url, base, Some(k));
    InsertAt(ip, url, base, body, k);
  }

  /** A block added at `k` to a text that agrees with `body` up to `k`. */
  lemma InsertAt(ip: string, url: string, base: string, body: string, k: nat)
    requires k <= |base| && k <= |body| && base[..k] == body[..k]
    ensures k + |RuleBlock(ip, url)| <= |AddProxy(ip, url, base, Some(k))|
    ensures AddProxy(ip, url, base, Some(k))[..k] == body[..k]
    ensures AddProxy(ip, url, base, Some(k))[k..k + |RuleBlock(ip, url)|] == RuleBlock(ip, url)
  {
    assert SliceOffset(base, Some(k)) == k;
  }

  /**
   * Reading the file back after set_proxy does not always give the new rule: for an IP
   * with a `#` in it, the block's own IP is stripped as a comment, and the client is not
   * in the re-read map, whatever the body and URL.
   */
  lemma SetBodyHashIp(ip: string, url: string, body: string)
    requires '#' in ip
    ensures ip !in Parse(SetBody(ip, url, body, Parse(body))).ipProxyMap
  {
    HashIpNeverKey(SetBody(ip, url, body, Parse(body)), ip);
  }

  /**
   * The default-line scan does not skip rule blocks: a block prepended to a text (what
   * set_proxy does when there is no default line) supplies the next read's default line,
   * its own `proxy_pass` line, and the next anchor falls inside it, before its `}`.
   */
  lemma PrependedBlockIsDefault(ip: string, url: string, body: string)
    requires Word(ip, NonSpace) && Word(url, Token)
    ensures Parse(RuleBlock(ip, url) + body).defaultProxy == Some(url)
    ensures Parse(RuleBlock(ip, url) + body).insertIndex.Some?
    ensures Parse(RuleBlock(ip, url) + body).insertIndex.value == 41 + |ip| + |url|
  {
    var head := "\nif ( $remote_addr ~* " + ip + " ) {\n";
    assert 2 < |head| && head[0] == '\n' && head[1] == 'i' && head[|head| - 1] == '\n' &&
           (forall r :: 0 < r < |head| - 1 ==> head[r] != '\n') && |head| == 27 + |ip| by {
      HeadChars(ip);
    }
    assert RuleBlock(ip, url) + body == head + (" proxy_pass " + url + ";\n" + ("}\n" + body));
    LayoutIsDefault(head, url, "}\n" + body, RuleBlock(ip, url) + body, 41 + |ip| + |url|);
  }

  /** What read_config reports when the default search finds a line. */
  lemma ParseFound(s: string, p: nat, e: nat, url: string)
    requires FindFirst(s, DefaultLine, 0) == Some(Found(p, e, [url]))
    ensures Parse(s).defaultProxy == Some(url) && Parse(s).insertIndex == Some(e)
  {
  }

  /**
   * A text that opens with a line holding no other newline, followed by a line
   * `\n proxy_pass <url>;\n`, has that line as its first default line.
   */
  lemma FirstDefaultLine(s: string, p: nat, url: string, e: nat)
    requires Word(url, Token) && 1 < p && e == p + 15 + |url| <= |s|
    requires s[0] == '\n' && s[1] == 'i' && forall r :: 0 < r < p ==> s[r] != '\n'
    requires s[p] == '\n' && s[p + 1] == ' ' && s[p + 2] == 'p' && s[p + 2..p + 12] == "proxy_pass"
    requires s[p + 12] == ' ' && s[p + 13..p + 13 + |url|] == url
    requires s[p + 13 + |url|] == ';' && s[p + 14 + |url|] == '\n'
    ensures FindFirst(s, DefaultLine, 0) == Some(Found(p, e, [url]))
  {
    DefaultLineAt(s, p, url, e);
    NoDefaultBefore(s, p);
    FindFirstAt(s, DefaultLine, 0, p);
  }

  /** No default line starts inside a first line that has no newline of its own. */
  lemma NoDefaultBefore(s: string, p: nat)
    requires 1 < p <= |s| && s[0] == '\n' && s[1] == 'i' && forall r :: 0 < r < p ==> s[r] != '\n'
    ensures forall r :: 0 <= r < p ==> Match(s, r, DefaultLine).None?
  {
    forall r | 0 <= r < p ensures Match(s, r, DefaultLine).None? {
      if r == 0 {
        NoDefaultAtStart(s);
      } else {
        NoDefaultAt(s, r);
      }
    }
  }

  /** A default line starts with a newline. */
  lemma NoDefaultAt(s: string, r: nat)
    requires r < |s| && s[r] != '\n'
    ensures Match(s, r, DefaultLine).None?
  {
    assert !LiteralAt(s, r, "\n") by {
      if r + 1 <= |s| {
        assert s[r..r + 1][0] == s[r];
      }
    }
  }

  /** A newline followed by `i` does not start a default line. */
  lemma NoDefaultAtStart(s: string)
    requires 1 < |s| && s[0] == '\n' && s[1] == 'i'
    ensures Match(s, 0, DefaultLine).None?
  {
    var t1 := DefaultLine.next;
    assert RunEnd(s, 1, Space) == 1;
    assert !LiteralAt(s, 1, "proxy_pass") by {
      if 11 <= |s| {
        assert s[1..11][0] == s[1];
      }
    }
    assert Match(s, 1, t1.next).None?;
    assert Backtrack(s, 1, 1, t1).None?;
  }

  /** A line `\n proxy_pass <url>;\n` is a default line. */
  lemma DefaultLineAt(s: string, p: nat, url: string, e: nat)
    requires Word(url, Token) && e == p + 15 + |url| <= |s|
    requires s[p] == '\n' && s[p + 1] == ' ' && s[p + 2] == 'p' && s[p + 2..p + 12] == "proxy_pass"
    requires s[p + 12] == ' ' && s[p + 13..p + 13 + |url|] == url
    requires s[p + 13 + |url|] == ';' && s[p + 14 + |url|] == '\n'
    ensures Match(s, p, DefaultLine) == Some(Scan(e, [url]))
  {
    DefaultUrl(s, p + 13, url, e);
    DefaultKeyword(s, p, e, [url]);
  }

  /**
   * A text made of a first line with no newline but its leading and trailing ones, then
   * ` proxy_pass <url>;\n`, then anything: read_config takes `<url>` for the default and
   * anchors right after that line.
   */
  lemma LayoutIsDefault(head: string, url: string, rest: string, s: string, e: nat)
    requires Word(url, Token) && s == head + (" proxy_pass " + url + ";\n" + rest) && e == |head| + 14 + |url|
    requires 2 < |head| && head[0] == '\n' && head[1] == 'i' && head[|head| - 1] == '\n'
    requires forall r :: 0 < r < |head| - 1 ==> head[r] != '\n'
    ensures Parse(s).defaultProxy == Some(url) && Parse(s).insertIndex == Some(e)
  {
    var p := |head| - 1;
    assert p + 15 + |url| <= |s| && s[p] == '\n' && s[p + 1] == ' ' && s[p + 2] == 'p' &&
           s[p + 2..p + 12] == "proxy_pass" && s[p + 12] == ' ' && s[p + 13..p + 13 + |url|] == url &&
           s[p + 13 + |url|] == ';' && s[p + 14 + |url|] == '\n' by {
      var t := " proxy_pass " + url + ";\n" + rest;
      LineChars(url, rest);
      assert s[p + 1..] == t;
      assert s[p + 2..p + 12] == t[1..11];
      assert s[p + 13..p + 13 + |url|] == t[12..12 + |url|];
    }
    assert s[0] == '\n' && s[1] == 'i' && forall r :: 0 < r < p ==> s[r] != '\n' by {
      assert forall r :: 0 <= r <= p ==> s[r] == head[r];
    }
    FirstDefaultLine(s, p, url, e);
    ParseFound(s, p, e, url);
  }

  /**
   * The default capture is `[^\s;]*`, so a `proxy_pass ;` line with no upstream is a
   * default line too, and read_config reports the empty string as the default.
   */
  lemma EmptyDefault()
    ensures Parse("\ni\n proxy_pass ;\n").defaultProxy == Some("")
  {
    LayoutIsDefault("\ni\n", "", "", "\ni\n proxy_pass ;\n", 17);
  }

  /** No newline in the opening line of a block but the ones it starts and ends with. */
  lemma HeadChars(ip: string)
    requires Word(ip, NonSpace)
    ensures |"\nif ( $remote_addr ~* " + ip + " ) {\n"| == 27 + |ip|
    ensures ("\nif ( $remote_addr ~* " + ip + " ) {\n")[1] == 'i'
    ensures ("\nif ( $remote_addr ~* " + ip + " ) {\n")[26 + |ip|] == '\n'
    ensures forall r :: 0 < r < 26 + |ip| ==> ("\nif ( $remote_addr ~* " + ip + " ) {\n")[r] != '\n'
  {
    var a := "\nif ( $remote_addr ~* ";
    var h := a + ip + " ) {\n";
    forall r | 0 < r < 26 + |ip| ensures h[r] != '\n' {
      if r < 22 {
        assert h[r] == a[r];
        assert '\n' !in a[1..];
        assert a[r] == a[1..][r - 1];
      } else if r < 22 + |ip| {
        assert h[r] == ip[r - 22];
        assert InClass(ip[r - 22], NonSpace);
      } else {
        assert h[r] == " ) {\n"[r - 22 - |ip|];
      }
    }
  }

  /** The characters of the `proxy_pass` line of a block and what follows it. */
  lemma LineChars(url: string, rest: string)
    ensures |" proxy_pass " + url + ";\n" + rest| == 14 + |url| + |rest|
    ensures (" proxy_pass " + url + ";\n" + rest)[0] == ' '
    ensures (" proxy_pass " + url + ";\n" + rest)[1] == 'p'
    ensures (" proxy_pass " + url + ";\n" + rest)[1..11] == "proxy_pass"
    ensures (" proxy_pass " + url + ";\n" + rest)[11] == ' '
    ensures (" proxy_pass " + url + ";\n" + rest)[12..12 + |url|] == url
    ensures (" proxy_pass " + url + ";\n" + rest)[12 + |url|] == ';'
    ensures (" proxy_pass " + url + ";\n" + rest)[13 + |url|] == '\n'
  {
    var k := " proxy_pass ";
    var t := k + url + ";\n" + rest;
    assert t[..12] == k;
    assert t[1..11] == k[1..11];
    assert t[12..12 + |url|] == url;
  }

  /** `\n\s*proxy_pass\s*` then the rest of the default pattern. */
  lemma DefaultKeyword(s: string, p: nat, e: nat, groups: seq<string>)
    requires p + 14 <= |s| && s[p] == '\n' && s[p + 1] == ' ' && s[p + 2] == 'p' && s[p + 12] == ' '
    requires s[p + 2..p + 12] == "proxy_pass"
    requires s[p + 13] == ';' || InClass(s[p + 13], Token)
    requires Match(s, p + 13, DefaultLine.next.next.next.next) == Some(Scan(e, groups))
    ensures Match(s, p, DefaultLine) == Some(Scan(e, groups))
  {
    var t3 := DefaultLine.next.next.next;
    assert RunEnd(s, p + 12, Space) == p + 13;
    assert Match(s, p + 12, t3) == Some(Scan(e, groups));
    assert LiteralAt(s, p + 2, "proxy_pass");
    assert RunEnd(s, p + 1, Space) == p + 2;
    assert Match(s, p + 1, DefaultLine.next) == Some(Scan(e, groups));
    assert s[p..p + 1] == [s[p]];
  }

  /** `([^\s;]*)\s*;[^\n]*\n` on a token followed by `;` and a newline. */
  lemma DefaultUrl(s: string, i: nat, url: string, e: nat)
    requires Word(url, Token) && e == i + |url| + 2 <= |s|
    requires s[i..i + |url|] == url && s[i + |url|] == ';' && s[i + |url| + 1] == '\n'
    ensures s[i] == ';' || InClass(s[i], Token)
    ensures Match(s, i, DefaultLine.next.next.next.next) == Some(Scan(e, [url]))
  {
    var q := i + |url|;
    var t4 := DefaultLine.next.next.next.next;
    assert AllIn(s, i, q, Token) by {
      forall m | i <= m < q ensures InClass(s[m], Token) {
        assert s[m] == s[i..q][m - i];
      }
    }
    RunEndIs(s, i, q, Token);
    DefaultSemicolon(s, q, e);
    assert Match(s, q, t4.next) == Some(Scan(e, []));
    assert [s[i..q]] + [] == [url];
    if |url| > 0 {
      assert s[i] == s[i..q][0];
    }
  }

  /** `\s*;[^\n]*\n` on `;` and a newline. */
  lemma DefaultSemicolon(s: string, q: nat, e: nat)
    requires e == q + 2 <= |s| && s[q] == ';' && s[q + 1] == '\n'
    ensures Match(s, q, DefaultLine.next.next.next.next.next) == Some(Scan(e, []))
  {
    var t5 := DefaultLine.next.next.next.next.next;
    assert s[q + 1..q + 2] == "\n";
    assert RunEnd(s, q + 1, NonNewline) == q + 1;
    assert Match(s, q + 1, t5.next.next) == Some(Scan(e, []));
    assert s[q..q + 1] == ";";
    assert RunEnd(s, q, Space) == q;
  }

  /** How a set_proxy or clear_proxy request ends. */
  datatype Outcome =
    | Served               // 200
    | BadRequest           // the handler throws { code: 400 } before any I/O
    | ReadConfigFailed     // read_config's error, 500
    | WriteConfigFailed(e: Error)  // write_config's error: 409 for Conflict, 500 otherwise

  /** The outcome of a request whose read_config succeeded, from write_config's error. */
  function AfterWrite(err: Option<Error>): Outcome {
    match err
    case None => Served
    case Some(e) => WriteConfigFailed(e)
  }

  // ---------------------------------------------------------------------------
  // The config file and the module-level flag
  // ---------------------------------------------------------------------------

  class NginxConfig {
    /** The contents of `config.nginx_config`. */
    var file: string
    /** The module-level `is_writing` flag. */
    var isWriting: bool
    /** Every file and process operation performed so far. */
    var log: seq<Action>

    constructor(contents: string)
      ensures file == contents && !isWriting && log == []
    {
      file := contents;
      isWriting := false;
      log := [];
    }

    /** read_config: `None` when the file cannot be read, otherwise what the body says. */
    method ReadConfig(readOk: bool) returns (r: Option<ParsedConfig>)
      modifies this`log
      ensures log == old(log) + [ReadFile]
      ensures r == if readOk then Some(Parse(file)) else None
    {
      log := log + [ReadFile];
      if !readOk {
        return None;
      }
      var body := file;
      var rules := CollectRules(StripComments(body));
      match FindFirst(body, DefaultLine, 0)
      case None =>
        r := Some(ParsedConfig(None, None, rules));
      case Some(f) =>
        DefaultShape(body, f);
        r := Some(ParsedConfig(Some(f.groups[0]), Some(f.end), rules));
    }

    /**
     * write_config: refuse with Conflict while another write is in progress; otherwise
     * snapshot the file, write the new body, run the verify and reload commands that are
     * configured, and write the snapshot back when a step failed after the write was
     * attempted and before the verify command passed (a failed read writes nothing back).
     */
    method WriteConfig(newBody: string, env: Environment) returns (err: Option<Error>)
      modifies this
      ensures old(isWriting) ==> err == Some(Conflict) && isWriting && file == old(file) && log == old(log)
      ensures !old(isWriting) ==> !isWriting && err == TxError(env)
      ensures !old(isWriting) ==> file == TxFile(old(file), newBody, env)
      ensures !old(isWriting) ==> log == old(log) + TxLog(old(file), newBody, env)
    {
      if isWriting {
        return Some(Conflict);
      }
      isWriting := true;
      var oldBody := "";
      var needRollback := false;
      err := None;
      log := log + [ReadFile];
      if !env.readOk {
        err := Some(ReadFailed);
      } else {
        oldBody := file;
        log := log + [WriteFile(newBody)];
        file := Written(newBody, env.writeOk, env);
        needRollback := true;
        if !env.writeOk {
          err := Some(WriteFailed);
        } else {
          if env.verify.Exits? {
            log := log + [RunVerify];
            if env.verify.code != 0 {
              err := Some(VerifyFailed);
            } else {
              needRollback := false;
            }
          }
          if err.None? && env.reload.Exits? {
            log := log + [RunReload];
            if env.reload.code != 0 {
              err := Some(ReloadFailed);
            }
          }
        }
      }
      if err.Some? && needRollback {
        log := log + [WriteFile(oldBody)];
        file := Written(oldBody, env.rollbackOk, env);
      }
      isWriting := false;
    }

    /** set_proxy: point client `ip` at `url`. */
    method SetProxy(ip: string, url: string, readOk: bool, env: Environment) returns (res: Outcome)
      modifies this
      ensures ip == [] || url == [] ==> res == BadRequest && file == old(file) && isWriting == old(isWriting) && log == old(log)
      ensures ip != [] && url != [] && !readOk ==>
        res == ReadConfigFailed && file == old(file) && isWriting == old(isWriting) && log == old(log) + [ReadFile]
      ensures ip != [] && url != [] && readOk && old(isWriting) ==>
        res == WriteConfigFailed(Conflict) && file == old(file) && isWriting && log == old(log) + [ReadFile]
      ensures ip != [] && url != [] && readOk && !old(isWriting) ==>
        && res == AfterWrite(TxError(env)) && !isWriting
        && file == TxFile(old(file), SetBody(ip, url, old(file), Parse(old(file))), env)
        && log == old(log) + [ReadFile] + TxLog(old(file), SetBody(ip, url, old(file), Parse(old(file))), env)
    {
      if ip == [] || url == [] {
        return BadRequest;
      }
      var cfg := ReadConfig(readOk);
      if cfg.None? {
        return ReadConfigFailed;
      }
      var newBody := if ip in cfg.value.ipProxyMap then RemoveProxy(ip, file) else file;
      newBody := AddProxy(ip, url, newBody, cfg.value.insertIndex);
      var err := WriteConfig(newBody, env);
      res := AfterWrite(err);
    }

    /** clear_proxy: drop the rule blocks of client `ip`. */
    method ClearProxy(ip: string, readOk: bool, env: Environment) returns (res: Outcome)
      modifies this
      ensures ip == [] ==> res == BadRequest && file == old(file) && isWriting == old(isWriting) && log == old(log)
      ensures ip != [] && !readOk ==>
        res == ReadConfigFailed && file == old(file) && isWriting == old(isWriting) && log == old(log) + [ReadFile]
      ensures ip != [] && readOk && old(isWriting) ==>
        res == WriteConfigFailed(Conflict) && file == old(file) && isWriting && log == old(log) + [ReadFile]
      ensures ip != [] && readOk && !old(isWriting) ==>
        && res == AfterWrite(TxError(env)) && !isWriting
        && file == TxFile(old(file), ClearBody(ip, old(file), Parse(old(file))), env)
        && log == old(log) + [ReadFile] + TxLog(old(file), ClearBody(ip, old(file), Parse(old(file))), env)
    {
      if ip == [] {
        return BadRequest;
      }
      var cfg := ReadConfig(readOk);
      if cfg.None? {
        return ReadConfigFailed;
      }
      var newBody := if ip in cfg.value.ipProxyMap then RemoveProxy(ip, file) else file;
      var err := WriteConfig(newBody, env);
      res := AfterWrite(err);
    }
  }
}
