/**
 * The decision logic of run_checks.js: the inline-script extraction loop,
 * the lookup of a Chrome/Chromium binary, and the final error summary with
 * its process exit code.  The linters, the browser automation and all
 * console output are not modelled; the file system is an abstract
 * `fileExists` predicate and the environment a map of variables.
 */
module RunChecks {
  import opened Wrappers

  // -------------------------------------------------------------------------
  // Characters: case folding and the whitespace `trim` removes
  // -------------------------------------------------------------------------

  /** Case folding of a regular expression with flag `i` and without flag `u`,
      as far as it matters for the ASCII tags `<script` and `</script>`:
      ASCII letters fold, and no other character folds onto an ASCII one. */
  function Fold(c: char): char {
    if 'A' <= c <= 'Z' then (c as int + 32) as char else c
  }

  /** The characters `String.prototype.trim` strips: ECMAScript WhiteSpace
      (TAB, VT, FF, ZWNBSP and the Unicode category Zs) and LineTerminator. */
  predicate IsTrimSpace(c: char) {
    || c == '\t' || c == '\n' || c == '\U{B}' || c == '\U{C}' || c == '\r'
    || c == ' ' || c == '\U{A0}' || c == '\U{1680}'
    || ('\U{2000}' <= c <= '\U{200A}')
    || c == '\U{2028}' || c == '\U{2029}' || c == '\U{202F}' || c == '\U{205F}'
    || c == '\U{3000}' || c == '\U{FEFF}'
  }

  /** Neither end of `s` is whitespace. */
  predicate IsTrimmed(s: string) {
    s == [] || (!IsTrimSpace(s[0]) && !IsTrimSpace(s[|s| - 1]))
  }

  /** Length of the longest all-whitespace prefix of `s`. */
  function LeadingSpaces(s: string): (n: nat)
    ensures n <= |s|
    ensures forall k :: 0 <= k < n ==> IsTrimSpace(s[k])
    ensures n < |s| ==> !IsTrimSpace(s[n])
  {
    if s != [] && IsTrimSpace(s[0]) then 1 + LeadingSpaces(s[1..]) else 0
  }

  /** Length of the longest all-whitespace suffix of `s`. */
  function TrailingSpaces(s: string): (n: nat)
    ensures n <= |s|
    ensures forall k :: |s| - n <= k < |s| ==> IsTrimSpace(s[k])
    ensures n < |s| ==> !IsTrimSpace(s[|s| - 1 - n])
  {
    if s != [] && IsTrimSpace(s[|s| - 1]) then 1 + TrailingSpaces(s[..|s| - 1]) else 0
  }

  /** `String.prototype.trim`: the result is a slice of `s` with no whitespace
      at either end, and everything cut off is whitespace. */
  function Trim(s: string): (r: string)
    ensures IsTrimmed(r)
    ensures LeadingSpaces(s) + |r| <= |s|
    ensures r == s[LeadingSpaces(s)..LeadingSpaces(s) + |r|]
    ensures forall k :: 0 <= k < LeadingSpaces(s) ==> IsTrimSpace(s[k])
    ensures forall k :: LeadingSpaces(s) + |r| <= k < |s| ==> IsTrimSpace(s[k])
  {
    var t := s[LeadingSpaces(s)..];
    t[..|t| - TrailingSpaces(t)]
  }

  /** Trimming yields the empty string exactly when `s` is all whitespace. */
  lemma TrimEmptyIff(s: string)
    ensures Trim(s) == [] <==> forall k :: 0 <= k < |s| ==> IsTrimSpace(s[k])
  {
    if Trim(s) != [] {
      assert !IsTrimSpace(s[LeadingSpaces(s)]);
    }
  }

  /** A string that is already trimmed is left alone by `trim`. */
  lemma TrimmedIsFixed(s: string)
    requires IsTrimmed(s)
    ensures Trim(s) == s
  {
    if s != [] {
      assert LeadingSpaces(s) == 0;
      assert TrailingSpaces(s) == 0;
    }
  }

  // -------------------------------------------------------------------------
  // The script regular expression  /<script[^>]*>([\s\S]*?)<\/script>/gi
  // -------------------------------------------------------------------------

  const OpenTag: string := "<script"
  const CloseTag: string := "</script>"

  /** The lower-case pattern `pat` occurs at index `i` of `s`, ignoring the
      case of ASCII letters. */
  predicate OccursAt(s: string, i: nat, pat: string) {
    i + |pat| <= |s| && forall k :: 0 <= k < |pat| ==> Fold(s[i + k]) == pat[k]
  }

  /** The first index at or after `from` where `pat` occurs. */
  function FindFrom(s: string, from: nat, pat: string): (r: Option<nat>)
    decreases |s| - from
    ensures r.Some? ==> from <= r.value && OccursAt(s, r.value, pat)
    ensures r.Some? ==> forall k :: from <= k < r.value ==> !OccursAt(s, k, pat)
    ensures r.None? ==> forall k :: from <= k ==> !OccursAt(s, k, pat)
  {
    if |s| < from + |pat| then None
    else if OccursAt(s, from, pat) then Some(from)
    else FindFrom(s, from + 1, pat)
  }

  /** One match of the script regular expression: the index of `<script`,
      of the `>` that ends the opening tag, and of the closing `</script>`. */
  datatype Match = Match(open: nat, gt: nat, close: nat)

  /** Where the match ends, and so where `lastIndex` resumes the search. */
  function End(m: Match): nat {
    m.close + |CloseTag|
  }

  /** The regular expression matches at `m.open` with these groups: `[^>]*`
      cannot cross a `>`, so the opening tag ends at the first `>` after
      `<script`; the lazy `([\s\S]*?)` stops at the first `</script>` after it. */
  ghost predicate IsRegexMatch(s: string, m: Match) {
    && OccursAt(s, m.open, OpenTag)
    && m.open + |OpenTag| <= m.gt
    && OccursAt(s, m.gt, ">")
    && (forall k :: m.open + |OpenTag| <= k < m.gt ==> !OccursAt(s, k, ">"))
    && m.gt + 1 <= m.close
    && OccursAt(s, m.close, CloseTag)
    && (forall k :: m.gt + 1 <= k < m.close ==> !OccursAt(s, k, CloseTag))
  }

  /** The capture group `m[1]`: the text between the opening tag and `</script>`. */
  function Capture(s: string, m: Match): string
    requires IsRegexMatch(s, m)
  {
    s[m.gt + 1..m.close]
  }

  /** `scriptRe.exec(html)` with `lastIndex == from`: the scan finds the first
      `<script`, the first `>` after it and the first `</script>` after that.
      The result is the leftmost regex match at or after `from`, and there is
      none exactly when the scan gives up. */
  function NextMatch(s: string, from: nat): (r: Option<Match>)
    ensures r.Some? ==> IsRegexMatch(s, r.value) && from <= r.value.open
    ensures r.Some? ==> from < End(r.value) <= |s|
    ensures r.Some? ==> NoOpenTagIn(s, from, r.value.open)
    ensures r.None? ==> forall m: Match :: from <= m.open ==> !IsRegexMatch(s, m)
  {
    match FindFrom(s, from, OpenTag)
    case None => None
    case Some(p) =>
      match FindFrom(s, p + |OpenTag|, ">")
      case None => None
      case Some(g) =>
        match FindFrom(s, g + 1, CloseTag)
        case None => None
        case Some(c) => Some(Match(p, g, c))
  }

  /** Where the `exec` loop stands after the matches `ms`, begun at `from`. */
  function ResumeAt(from: nat, ms: seq<Match>): nat {
    if ms == [] then from else End(ms[|ms| - 1])
  }

  /** Every match the global `exec` loop visits, starting at `from`. */
  function Matches(s: string, from: nat): (ms: seq<Match>)
    decreases |s| - from
    ensures forall i :: 0 <= i < |ms| ==> IsRegexMatch(s, ms[i])
  {
    match NextMatch(s, from)
    case None => []
    case Some(m) => [m] + Matches(s, End(m))
  }

  /** No `<script` starts in the index range [lo, hi). */
  ghost predicate NoOpenTagIn(s: string, lo: nat, hi: nat) {
    forall k :: lo <= k < hi ==> !OccursAt(s, k, OpenTag)
  }

  /** The matches the loop visits come in document order, leftmost first:
      none overlaps the next, and no `<script` is skipped between the point
      where the search resumes and the next match. */
  lemma {:induction false} MatchesInDocumentOrder(s: string, from: nat)
    decreases |s| - from
    ensures forall i :: 0 <= i < |Matches(s, from)| ==> from <= Matches(s, from)[i].open
    ensures Matches(s, from) != [] ==> NoOpenTagIn(s, from, Matches(s, from)[0].open)
    ensures forall i :: 0 <= i < |Matches(s, from)| - 1 ==>
              && End(Matches(s, from)[i]) <= Matches(s, from)[i + 1].open
              && NoOpenTagIn(s, End(Matches(s, from)[i]), Matches(s, from)[i + 1].open)
  {
    match NextMatch(s, from)
    case None =>
    case Some(m) =>
      var rest := Matches(s, End(m));
      MatchesInDocumentOrder(s, End(m));
      var ms := Matches(s, from);
      assert ms == [m] + rest;
      forall i | 0 <= i < |ms| - 1
        ensures End(ms[i]) <= ms[i + 1].open && NoOpenTagIn(s, End(ms[i]), ms[i + 1].open)
      {
        assert ms[i + 1] == rest[i];
        if i > 0 {
          assert ms[i] == rest[i - 1];
        }
      }
  }

  /** The loop stops only when no regex match is left after the last one. */
  lemma {:induction false} MatchesAreExhaustive(s: string, from: nat)
    decreases |s| - from
    ensures forall m: Match :: ResumeAt(from, Matches(s, from)) <= m.open ==> !IsRegexMatch(s, m)
  {
    match NextMatch(s, from)
    case None =>
    case Some(m) =>
      MatchesAreExhaustive(s, End(m));
      var rest := Matches(s, End(m));
      assert Matches(s, from) == [m] + rest;
      assert ResumeAt(from, Matches(s, from)) == ResumeAt(End(m), rest);
  }

  /** The trimmed captures of `ms`, keeping only the non-empty ones. */
  function TrimmedCaptures(s: string, ms: seq<Match>): (scripts: seq<string>)
    requires forall i :: 0 <= i < |ms| ==> IsRegexMatch(s, ms[i])
    ensures |scripts| <= |ms|
    ensures forall i :: 0 <= i < |scripts| ==> scripts[i] != [] && IsTrimmed(scripts[i])
  {
    if ms == [] then []
    else
      var content := Trim(Capture(s, ms[0]));
      (if content != [] then [content] else []) + TrimmedCaptures(s, ms[1..])
  }

  /** Pushing one script, or skipping an empty one, keeps `scripts` a prefix
      of the final list. */
  lemma PushKeepsOrder(scripts: seq<string>, content: string, rest: seq<string>, total: seq<string>)
    requires scripts + ((if content != [] then [content] else []) + rest) == total
    ensures (if content != [] then scripts + [content] else scripts) + rest == total
  {
    if content != [] {
      assert scripts + ([content] + rest) == (scripts + [content]) + rest;
    }
  }

  /** Unfolding `TrimmedCaptures` once at the front. */
  lemma TrimmedCapturesCons(s: string, m: Match, rest: seq<Match>)
    requires IsRegexMatch(s, m)
    requires forall i :: 0 <= i < |rest| ==> IsRegexMatch(s, rest[i])
    ensures TrimmedCaptures(s, [m] + rest)
         == (if Trim(Capture(s, m)) != [] then [Trim(Capture(s, m))] else []) + TrimmedCaptures(s, rest)
  {
    assert ([m] + rest)[1..] == rest;
  }

  /** The `scripts` array: the trimmed, non-empty bodies of every inline
      `<script>` element, in document order. */
  function InlineScripts(html: string): (scripts: seq<string>)
    ensures |scripts| <= |Matches(html, 0)|
    ensures forall i :: 0 <= i < |scripts| ==> scripts[i] != [] && IsTrimmed(scripts[i])
  {
    TrimmedCaptures(html, Matches(html, 0))
  }

  /** The extraction loop: runs `scriptRe.exec` until it fails, pushing each
      non-empty trimmed capture. */
  method ExtractInlineScripts(html: string) returns (scripts: seq<string>)
    ensures scripts == InlineScripts(html)
  {
    scripts := [];
    var lastIndex: nat := 0;
    while true
      invariant lastIndex <= |html|
      invariant scripts + TrimmedCaptures(html, Matches(html, lastIndex)) == InlineScripts(html)
      decreases |html| - lastIndex
    {
      var m := NextMatch(html, lastIndex);
      if m.None? {
        break;
      }
      assert Matches(html, lastIndex) == [m.value] + Matches(html, End(m.value));
      TrimmedCapturesCons(html, m.value, Matches(html, End(m.value)));
      var content := Trim(Capture(html, m.value));
      ghost var rest := TrimmedCaptures(html, Matches(html, End(m.value)));
      PushKeepsOrder(scripts, content, rest, InlineScripts(html));
      if content != [] {
        scripts := scripts + [content];
      }
      lastIndex := End(m.value);
    }
  }

  /** Every extracted script is non-empty and already trimmed. */
  lemma ScriptsAreTrimmed(html: string)
    ensures forall i :: 0 <= i < |InlineScripts(html)| ==>
              InlineScripts(html)[i] != [] && Trim(InlineScripts(html)[i]) == InlineScripts(html)[i]
  {
    var scripts := InlineScripts(html);
    forall i | 0 <= i < |scripts|
      ensures scripts[i] != [] && Trim(scripts[i]) == scripts[i]
    {
      TrimmedIsFixed(scripts[i]);
    }
  }

  /** With no `</script>` after the end of any `<script`, nothing is extracted;
      in particular markup without a closing tag yields no scripts. */
  lemma NoClosingTagNoScripts(html: string)
    requires forall p: nat, c: nat :: OccursAt(html, p, OpenTag) && OccursAt(html, c, CloseTag) ==> c <= p + |OpenTag|
    ensures InlineScripts(html) == []
  {
    var ms := Matches(html, 0);
    if ms != [] {
      assert false;
    }
  }

  // -------------------------------------------------------------------------
  // findChromeBinary
  // -------------------------------------------------------------------------

  /** The fixed search list, in the order it is tried. */
  const Candidates: seq<string> := [
    "/usr/bin/google-chrome-stable",
    "/usr/bin/google-chrome",
    "/usr/bin/chromium-browser",
    "/usr/bin/chromium",
    "/snap/bin/chromium"
  ]

  /** `process.env.CHROME_BIN || process.env.CHROME_PATH`: a non-empty
      CHROME_BIN wins, otherwise CHROME_PATH; an unset variable reads as "",
      which is falsy just like `undefined`. */
  function EnvPath(env: map<string, string>): (path: string)
    ensures "CHROME_BIN" in env && env["CHROME_BIN"] != "" ==> path == env["CHROME_BIN"]
    ensures path != "" ==>
              ("CHROME_BIN" in env && path == env["CHROME_BIN"]) || ("CHROME_PATH" in env && path == env["CHROME_PATH"])
    ensures path == "" <==>
              ("CHROME_BIN" !in env || env["CHROME_BIN"] == "") && ("CHROME_PATH" !in env || env["CHROME_PATH"] == "")
  {
    if "CHROME_BIN" in env && env["CHROME_BIN"] != "" then env["CHROME_BIN"]
    else if "CHROME_PATH" in env then env["CHROME_PATH"]
    else ""
  }

  /** The environment override when it names an existing file, otherwise the
      first existing candidate, otherwise null. */
  method FindChromeBinary(env: map<string, string>, fileExists: string -> bool) returns (path: Option<string>)
    ensures path.Some? ==> fileExists(path.value)
    ensures EnvPath(env) != "" && fileExists(EnvPath(env)) ==> path == Some(EnvPath(env))
    ensures !(EnvPath(env) != "" && fileExists(EnvPath(env))) && path.Some? ==>
              exists i :: 0 <= i < |Candidates| && Candidates[i] == path.value
                          && forall j :: 0 <= j < i ==> !fileExists(Candidates[j])
    ensures path.None? <==>
              !(EnvPath(env) != "" && fileExists(EnvPath(env)))
              && forall j :: 0 <= j < |Candidates| ==> !fileExists(Candidates[j])
  {
    var envPath := EnvPath(env);
    if envPath != "" && fileExists(envPath) {
      return Some(envPath);
    }
    for i := 0 to |Candidates|
      invariant forall j :: 0 <= j < i ==> !fileExists(Candidates[j])
    {
      if fileExists(Candidates[i]) {
        return Some(Candidates[i]);
      }
    }
    return None;
  }

  // -------------------------------------------------------------------------
  // Summary and exit code
  // -------------------------------------------------------------------------

  /** A message captured from the page: `{ type, text }`. */
  datatype Message = Message(kind: string, text: string)

  /** `msgs.filter(m => m.type === "error")`. */
  function Errors(msgs: seq<Message>): (errors: seq<Message>)
    ensures |errors| <= |msgs|
    ensures forall e :: e in errors ==> e in msgs && e.kind == "error"
    ensures forall i :: 0 <= i < |msgs| && msgs[i].kind == "error" ==> msgs[i] in errors
  {
    if msgs == [] then []
    else (if msgs[0].kind == "error" then [msgs[0]] else []) + Errors(msgs[1..])
  }

  /** The filter keeps order: it works piecewise on a concatenation. */
  lemma {:induction false} ErrorsOfConcat(a: seq<Message>, b: seq<Message>)
    ensures Errors(a + b) == Errors(a) + Errors(b)
  {
    if a == [] {
      assert a + b == b;
    } else {
      assert (a + b)[1..] == a[1..] + b;
      ErrorsOfConcat(a[1..], b);
    }
  }

  /** `process.exitCode`: 2 when some page error was captured, 0 otherwise. */
  function ExitCode(msgs: seq<Message>): (code: int)
    ensures code == 2 <==> exists i :: 0 <= i < |msgs| && msgs[i].kind == "error"
    ensures code == 0 <==> forall i :: 0 <= i < |msgs| ==> msgs[i].kind != "error"
  {
    var errors := Errors(msgs);
    if |errors| > 0 then
      assert errors[0] in errors;
      2
    else 0
  }

  /** The `msgs` the summary reads: still empty when no browser binary was
      found, because the page is then never opened.  The run fails exactly
      when a browser was found and the page reported an error. */
  function CapturedMessages(chromePath: Option<string>, pageMessages: seq<Message>): (msgs: seq<Message>)
    ensures ExitCode(msgs) == 2 <==>
              chromePath.Some? && exists i :: 0 <= i < |pageMessages| && pageMessages[i].kind == "error"
  {
    if chromePath.None? then [] else pageMessages
  }

  /** Without a browser binary the run always exits with code 0. */
  lemma NoBrowserExitsZero(pageMessages: seq<Message>)
    ensures ExitCode(CapturedMessages(None, pageMessages)) == 0
  {
  }
}
