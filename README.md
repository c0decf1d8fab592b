# client-proxy: the nginx rule editor, in Dafny

client-proxy keeps per-client routing rules inside an nginx configuration file. Each rule is a
block

    if ( $remote_addr ~* IP ) {
     proxy_pass URL;
    }

spliced in after the file's default `proxy_pass` line. A client's traffic is sent to `URL`
instead of the default upstream. This project models the engine in `routes/index.js` that
edits those blocks:

- `read_config` parses the file. It finds the first default line, which gives the default
  upstream and the insertion anchor just past that line. It strips `#` comments and collects
  the map from client IP to URL out of the rule blocks that remain.
- `add_proxy` splices a rule block into the text at the anchor.
- `remove_proxy` is a global replace. It turns every rule block of one IP that the global
  search visits into a newline.
- `write_config` is the guarded transaction. It refuses with a conflict while another write
  is in progress. Otherwise it snapshots the file, writes the new body, and runs the
  configured verify and reload commands. It writes the snapshot back when a step failed
  after the write was attempted and before the verify command passed. A failed snapshot
  read writes nothing back.
- `set_proxy` and `clear_proxy` build a new body from the parsed file and hand it to
  `write_config`.

The modules, leaf first:

- `Text` (text.dfy) holds JavaScript's `\s`, the character classes used in the patterns, and
  greedy runs.
- `Pattern` (pattern.dfy) holds the pattern language: a regular expression written as a
  list of items (literals, and starred or captured character classes). One backtracking
  matcher `Match` runs such patterns, with greedy stars tried longest first as
  JavaScript does. The matcher is proved sound and complete against `Derives`, the grammar
  reading of a pattern. On top of it sit the leftmost search `FindFirst` (`String.match`) and
  the global search `FindAll`, which resumes at the end of each match. `Splice` and
  `ReplaceAll` model `String.replace` with a callback.
- `Parser` (parser.dfy) models `read_config`'s text processing. It holds two of the file's
  patterns, the default line `DefaultLine` and the rule pattern `RulePattern`. The comment
  pattern `/#[^\n]*/g` is modelled directly as a scan (`StripComments`, `SkipComment`)
  rather than as a pattern. It also holds the rule scan as a loop (`CollectRules`) and as a
  fold (`Record`), and the result `Parse`.
- `Editor` (editor.dfy) models `add_proxy` and `remove_proxy`, and holds the remove
  pattern `RemovePattern`.
- `Routes` (routes.dfy) holds the class `NginxConfig`. Its fields are the file, the module's
  `is_writing` flag and a log of the I/O performed. Its methods are `ReadConfig`,
  `WriteConfig`, `SetProxy` and `ClearProxy`. The same module holds the specification
  functions of one transaction (`TxError`, `RollsBack`, `TxFile`, `TxLog`) and of the new
  bodies (`SetBody`, `ClearBody`).

The outcomes of the file system and of the two shell commands are parameters: an
`Environment` says whether each read and write succeeds, and how each configured command exits.

Behaviour of the code that the model keeps as written:

- With no default line, `insert_index` stays `false`, `add_proxy` slices at offset 0, and the
  block is prepended. No error is raised (`Routes.SetBodyNoDefault`).
- The rule map is built whether or not a default line was found (`Parser.Parse`).
- The default capture is `[^\s;]*`, so a `proxy_pass ;` line with no upstream is a default
  line, and the default it gives is the empty string (`Routes.EmptyDefault`).
- `need_rollback` is set after the write even when the write failed, so a failed write is
  rolled back (`Routes.WriteFailure`).
- When no verify command is configured, a failed reload rolls back
  (`Routes.ReloadFailureWithoutVerify`).
- The error of the rollback write is ignored. The transaction's error never depends on it
  (`Routes.TxError` does not read `rollbackOk`).
- `set_proxy` inserts at the anchor computed before `remove_proxy` ran. That anchor is still
  right when none of the client's old blocks starts more than one character before it. This
  covers the usual layout, where the block after the default line starts on that line's own
  newline (`Routes.SetBodyStaleAnchor`). It is wrong when an old block of the client stands
  earlier. On a file with no default line, a first `set_proxy` prepends the block, and the
  next read takes the block's own `proxy_pass` line as the default line. A second
  `set_proxy` for the same IP then removes that block, which shrinks the text before the
  stale anchor, and the new block lands further into the old text, possibly in the middle
  of a token. The model keeps this, since `Routes.SetBody` takes the anchor from the read
  before the removal.
- The default-line scan does not skip rule blocks. A block's own `\n proxy_pass URL;\n` line
  fits the default pattern, so a block prepended to a file without a default line supplies
  the default line for the next read. The next anchor then falls inside that block, just
  before its closing `}` line (`Routes.PrependedBlockIsDefault`, `Editor.RuleBlock`).
- A match of the remove pattern takes the newline that ends its block with it. A block
  written right after another one, with a single newline between them, would need that
  newline as its own leading newline, so the global search never visits it as a block
  (`Editor.AdjacentBlockSkipped`). The model does not go on to prove that its text survives
  `remove_proxy`.
- An IP that contains `#` is cut short by comment stripping before the rule scan. It is
  never a key of the map that `read_config` builds, not even right after `set_proxy` wrote
  its block (`Parser.HashIpNeverKey`, `Routes.SetBodyHashIp`).

## Model

| member | source | states |
|---|---|---|
| `Text.IsSpace` | routes/index.js:149 | JavaScript's `\s` holds the tab, newline, vertical tab, form feed, carriage return and space, and no printable ASCII character |
| `Text.RunEnd` | routes/index.js:176 | a greedy `[k]*` starting at `i` stops at the first character outside class `k` or at the end of the text |
| `Text.RunEndSpan` | routes/index.js:176 | every character a greedy run passes over is in its class |
| `Text.RunEndIs` | routes/index.js:176 | any maximal run of the class from `i` ends where the greedy run ends |
| `Text.RunEndCovers` | routes/index.js:176 | the greedy run reaches at least as far as any run of its class from the same start |
| `Pattern.Match` | routes/index.js:149 | a match at `i` ends inside the text and captures one string per capturing group |
| `Pattern.MatchSound` | routes/index.js:149 | what the backtracking matcher reports is a derivation of the regular expression |
| `Pattern.MatchComplete` | routes/index.js:149 | whenever the regular expression derives a span at `i`, the matcher succeeds at `i` |
| `Pattern.MatchMeaning` | routes/index.js:149 | the matcher succeeds at `i` if and only if the regular expression matches at `i`, and its end is a derivation's end |
| `Pattern.MatchGroups` | routes/index.js:149-152 | each captured group consists only of characters of its group's class |
| `Pattern.MatchLength` | routes/index.js:149 | a match spans at least the total length of the pattern's literals |
| `Pattern.MatchStartsWith` | routes/index.js:149 | a pattern starting with a literal matches only where that literal stands |
| `Pattern.MatchEndsWith` | routes/index.js:149-152 | a pattern ending with a literal has that literal just before the end of its match |
| `Pattern.DerivesEndsWith` | routes/index.js:149-152 | any derivation of a pattern ending with a literal ends just after that literal |
| `Pattern.MatchGroupsAvoid` | routes/index.js:154-156 | a character that does not occur in the text occurs in no captured group |
| `Pattern.FindFirst` | routes/index.js:149 | `String.match`: a non-empty match found at or after `from` that is the matcher's match at its start |
| `Pattern.FindFirstAt` | routes/index.js:149 | when the matcher fails at every offset from `from` up to `p` and succeeds at `p`, `String.match` reports the match at `p` |
| `Pattern.FindFirstLeftmost` | routes/index.js:149 | there is no match at any offset between `from` and the one `FindFirst` reports, or anywhere when it reports none |
| `Pattern.FindAll` | routes/index.js:155 | the matches a global replace visits are ordered, non-overlapping spans of the text |
| `Pattern.FindAllFound` | routes/index.js:155 | every span the global search visits is a genuine match at its start |
| `Pattern.FindAllComplete` | routes/index.js:155 | any match the global search skips starts inside a span it has already taken |
| `Pattern.SpliceIdentity` | routes/index.js:177-183 | a replace whose callback returns each match unchanged gives back the text |
| `Pattern.SpansBounded` | routes/index.js:177 | the visited spans lie inside the text |
| `Pattern.SpansOrdered` | routes/index.js:177 | each visited span ends no later than any later span starts |
| `Pattern.ReplaceAll` | routes/index.js:177 | `String.replace` with a global pattern and a callback gives back the text unchanged when the search visits no match; `Splice` (its body) is described by `SpliceIdentity`, `SpliceLength` and `SplicePrefix` |
| `Pattern.SpliceLength` | routes/index.js:177-183 | replacements no longer than their matches give a text no longer than the input, and one of equal length only when every replacement has its match's length |
| `Pattern.SplicePrefix` | routes/index.js:177-183 | text before `k` is unchanged when every match starting before `k` is either given back unchanged, or starts at `k - 1` and has a replacement that begins with the match's first character |
| `Parser.DefaultLineGroups` | routes/index.js:149 | the default pattern is anchored, captures one run of `[^\s;]*`, which may be empty, and ends with a newline |
| `Parser.DefaultShape` | routes/index.js:149-152 | the default match runs from a newline to a newline and captures one run of characters without whitespace or `;`, possibly empty |
| `Parser.StripComments` | routes/index.js:148 | stripping comments never lengthens the text, and no `#` survives it |
| `Parser.SkipComment` | routes/index.js:148 | a comment's `[^\n]*` stops at the next newline or at the end: what is left is empty or starts with a newline, and no newline was skipped |
| `Parser.SkipCommentSuffix` | routes/index.js:148 | what is left after a comment is a suffix of the text |
| `Parser.CommentInvisible` | routes/index.js:148 | deleting a `#` comment that runs to the end of its line leaves the stripped text unchanged |
| `Parser.StripWithoutComments` | routes/index.js:148 | text without `#` is left as it is |
| `Parser.RulePatternGroups` | routes/index.js:154 | the rule pattern is anchored and captures a whitespace-free IP and a token URL |
| `Parser.RuleShape` | routes/index.js:154-156 | a rule match captures a whitespace-free IP and a URL token |
| `Parser.RuleMatches` | routes/index.js:155 | every rule match carries an IP and a URL |
| `Parser.Record` | routes/index.js:155-157 | the fold keeps every key it started with, and the last match's IP maps to that match's URL |
| `Parser.MapOf` | routes/index.js:155-157 | the map's keys are exactly the IPs the rule matches carry |
| `Parser.RecordKeys` | routes/index.js:155-157 | an IP is a key of the map exactly when some rule match carries it |
| `Parser.RecordLastWins` | routes/index.js:155-157 | when several matches carry one IP, the last one's URL is kept |
| `Parser.RecordKeeps` | routes/index.js:155-157 | a key that no later match carries keeps its value |
| `Parser.CollectRules` | routes/index.js:154-157 | the replace-callback loop builds the map of the fold over all rule matches, in order |
| `Parser.RecordStep` | routes/index.js:155-157 | one turn of that loop records the leftmost match and resumes after it |
| `Parser.Rules` | routes/index.js:148-155 | the rule matches are those of the comment-stripped body |
| `Parser.Parse` | routes/index.js:136-161 | the default and the anchor are both present or both absent, the anchor follows a newline inside the body, the default is a possibly empty run of `[^\s;]`, and the map's keys are exactly the IPs of the rule matches |
| `Parser.ParseDefaultAbsent` | routes/index.js:149-153 | there is no default exactly when the default pattern matches nowhere in the body |
| `Parser.ParseDefaultFirst` | routes/index.js:149-153 | a default comes from the leftmost match of the default pattern, which ends at the anchor and captures the default |
| `Parser.ParseLastWins` | routes/index.js:154-157 | a client named in several rule blocks maps to the URL of the last one |
| `Parser.ParseIgnoresComment` | routes/index.js:148-157 | a comment to the end of a line adds or changes no rule |
| `Parser.HashIpNeverKey` | routes/index.js:148-157 | no rule match carries an IP containing `#`, since comment stripping removes every `#` first |
| `Editor.RuleBlock` | routes/index.js:164-167 | a rule block is 43 characters besides its IP and URL, starts with a newline, and ends with `}` and a newline |
| `Editor.SliceOffset` | routes/index.js:169-171 | `body.slice` cuts at 0 for a missing anchor, at the anchor inside the text, and at the end for an anchor past it |
| `Editor.AddProxy` | routes/index.js:163-173 | the text grows by exactly one block, the text before the cut and the text after it are unchanged, and the block stands between them |
| `Editor.RemovePatternFacts` | routes/index.js:176 | the remove pattern is anchored, has 33 literal characters, captures a whitespace-free IP and a token URL, and ends with a newline |
| `Editor.BlocksLong` | routes/index.js:176 | each block the replace visits is at least 33 characters long |
| `Editor.BlockShape` | routes/index.js:176 | a visited block runs from a newline to a newline and captures a whitespace-free IP and a URL token |
| `Editor.BlocksSeparate` | routes/index.js:176-177 | visited blocks do not overlap, and each consumes its own leading and trailing newlines |
| `Editor.RemoveProxy` | routes/index.js:175-185 | the text never grows; it shrinks exactly when some visited block carries the IP, and otherwise comes back unchanged |
| `Editor.AdjacentBlockSkipped` | routes/index.js:176-177 | no visited block starts on the newline that ends another visited block, so a block following another after a single newline is passed over |
| `Editor.RemoveEach` | routes/index.js:177-183 | a block carrying the IP becomes one newline, any other block is kept verbatim, and the text between blocks is kept |
| `Editor.RemoveKeepsPrefix` | routes/index.js:175-185 | text before `k` survives when no block carrying the IP starts more than one character before `k` |
| `Routes.TxError` | routes/index.js:194-253 | a transaction never reports a conflict, reports a read error exactly when the read fails, and reports a reload error only after a passing read, write and verify |
| `Routes.RollsBack` | routes/index.js:209-249 | a rollback happens only after a passing read and only when the transaction reports an error |
| `Routes.TxFile` | routes/index.js:196-249 | the file ends as the snapshot, the new body, or what a failed write left |
| `Routes.TxLog` | routes/index.js:194-253 | the I/O begins with the snapshot read, stops there exactly when that read fails, otherwise writes the new body next, and has at most five steps |
| `Routes.ReadFailure` | routes/index.js:196-201 | a failed snapshot read ends the transaction with an error, and nothing is written |
| `Routes.WriteFailure` | routes/index.js:205-210 | a failed write is an error, and it is rolled back |
| `Routes.VerifyFailure` | routes/index.js:213-228 | a failed verify is an error, the reload never runs, and the snapshot is written back |
| `Routes.ReloadFailureAfterVerify` | routes/index.js:219-240 | after a passing verify, a failed reload is an error but the new body stays, with no rollback |
| `Routes.ReloadFailureWithoutVerify` | routes/index.js:209-244 | without a verify command, a failed reload is an error and the snapshot is written back |
| `Routes.Success` | routes/index.js:194-253 | the transaction succeeds exactly when no step fails, and then the file holds the new body |
| `Routes.RollbackExactly` | routes/index.js:244 | the rollback happens exactly when there is an error, the write was attempted, and the write and a verify did not both pass |
| `Routes.OldOrNew` | routes/index.js:244-249 | with working writes the file ends as the snapshot or the new body, and a rollback's write is the last step |
| `Routes.SetBody` | routes/index.js:78-82 | the new body grows by exactly one block, unless the client was in the map and had a block to remove, in which case it is shorter than that |
| `Routes.ClearBody` | routes/index.js:119-123 | clearing never lengthens the body, and leaves it unchanged exactly when the client is not in the map or has no block |
| `Routes.SetBodyAfterDefault` | routes/index.js:79-82 | for a client not yet in the map, the block is inserted right after the default line |
| `Routes.SetBodyNoDefault` | routes/index.js:79-82 | without a default line, the block is prepended |
| `Routes.SetBodyStaleAnchor` | routes/index.js:78-82 | the anchor taken before the removal still puts the block right after the default line when no old block of the client starts more than one character before it |
| `Routes.SetBodyHashIp` | routes/index.js:78-82 | after `set_proxy` with an IP containing `#`, reading the new body does not give that IP a rule |
| `Routes.PrependedBlockIsDefault` | routes/index.js:149-153 | read_config of a body that starts with a rule block takes the block's URL as the default and anchors just after its `proxy_pass` line |
| `Routes.LayoutIsDefault` | routes/index.js:149-153 | a text whose first line starts with a newline and `i`, is at least three characters long and has no inner newline, followed by ` proxy_pass URL;` and a newline, reads with `URL` as default and the anchor after that line |
| `Routes.EmptyDefault` | routes/index.js:149-152 | a `proxy_pass ;` line with nothing before the `;` is a default line, and the default read from it is the empty string |
| `Routes.FirstDefaultLine` | routes/index.js:149 | on such a text, `String.match` of the default pattern reports the `proxy_pass` line, with `URL` as its group |
| `Routes.DefaultLineAt` | routes/index.js:149 | the default pattern matches `\n proxy_pass URL;\n` for any URL without whitespace or `;`, capturing the URL |
| `Routes.NoDefaultBefore` | routes/index.js:149 | no default line starts before `p` in a text that opens with a newline and `i` and has no other newline before `p` |
| `Routes.NginxConfig.constructor` | routes/index.js:187 | a fresh config holds the given contents, is not writing, and has performed no I/O |
| `Routes.NginxConfig.ReadConfig` | routes/index.js:136-161 | one read of the file, then nothing on failure, or `Parse` of the file; the map is built by the loop |
| `Routes.NginxConfig.WriteConfig` | routes/index.js:187-258 | a conflict while writing touches nothing and leaves the flag set; otherwise the flag is cleared, and the error, the file and the I/O performed are those of the transaction |
| `Routes.NginxConfig.SetProxy` | routes/index.js:59-93 | a missing IP or URL is a bad request with no I/O; a conflict performs only the read and changes nothing else; a failed read changes nothing; otherwise the transaction runs on `SetBody` of the file as read |
| `Routes.NginxConfig.ClearProxy` | routes/index.js:103-133 | a missing IP is a bad request; a conflict performs only the read and changes nothing else; a failed read changes nothing; otherwise the transaction always runs, on `ClearBody` of the file as read |

## Left out

- The HTTP layer is not modelled: Express routing, the `Cache-Control` header, and the
  mapping of outcomes to status codes 200, 400, 409 and 500. `Outcome` names the cases.
- The `'self'` IP taken from `req.ip` is not modelled, nor the preset-server lookup by name
  through lodash. `SetProxy` and `ClearProxy` take the IP and URL as given.
- `get_config` and `app.js` are not part of this model.
- Real `fs.readFile`, `fs.writeFile` and `exec` are replaced by an `Environment` of outcomes.
  A failed write leaves the unknown content `debris`. A command that cannot be started is
  treated like a non-zero exit. An empty command string counts as not configured (`Unset`).
- The `async.series` callbacks and the event loop are not modelled. Each handler runs as one
  sequential method. A conflict arises only from the `isWriting` flag. Another request
  changing the file between `read_config` and `write_config`'s own read is not modelled:
  both reads see the same file.
- `data.toString()` decoding is not modelled: the file is a string of characters. Offsets
  count characters, while JavaScript counts UTF-16 code units; the two differ for characters
  outside the Basic Multilingual Plane.
- Console logging is left out.
- `Routes.NginxConfig.SetProxy` tests the IP against the map with `in`. JavaScript's `in`
  also sees the keys of `Object.prototype` (such as `constructor`), which the model does
  not. For such an IP the source calls `remove_proxy` first.
- `Routes.NginxConfig.ClearProxy` has the same `in` difference.
- `Parser.Record` stores every IP as a key. In JavaScript, `ret.ip_proxy_map[ip] = url` with
  the IP `__proto__` sets the object's prototype instead of adding a key, so such a rule
  never reaches the map there.
- `Routes.SetBody`: reading the new body is not proved to map the IP to the URL. That
  does not hold for every input. An IP containing `#` never becomes a key
  (`Routes.SetBodyHashIp`), and an old block that directly follows another is never visited
  by the removal's search (`Editor.AdjacentBlockSkipped`). The cases where it does hold depend on how
  matches of three patterns fall across the splice boundaries, which the model does not
  characterise.
