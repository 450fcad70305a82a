/**
  The reference rewrite of the preview, `html.replace(pattern, callback)`, in
  the three parts the regular-expression engine and the callback play:
  the global scan cuts the document into characters and matches (`Tokens`),
  the callback decides for each match whether it stays or is embedded
  (`Decide`), and emission writes the output text while object URLs are
  handed out in order (`Emit`).  `Rewrite` is the composition.

  Some lemmas here say nothing new: `RewritesOfScans`, `JoinOfRewrites`,
  `RewriteIsEmit`, `RewriteOfTokens`, `EmitSplitsAtLineTerminator`,
  `RewriteInertFront`, `RewriteInertStep`, `TokensNoMatchStep`, `PlainsCons`
  and `AppendAssociative` restate a fact in the exact shape the next step of
  a proof uses, and `EmitTokens` names the emission of a scan held in a
  variable.  They keep every proof obligation small enough for the verifier;
  the facts about the pass are the lemmas that use them.
 */
module ReferenceRewrite {
  import opened Wrappers
  import opened Strings
  import opened CodePane
  import opened ObjectUrls
  import opened PreviewPipeline

  // ---------------------------------------------------------------------------
  // Scanning

  /** A character the pattern does not match at, or one whole match and its text. */
  datatype Token = Plain(c: char) | Found(h: Hit, text: string)

  function TokenText(t: Token): string {
    match t
    case Plain(c) => [c]
    case Found(_, text) => text
  }

  function Flatten(ts: seq<Token>): string
    decreases |ts|
  {
    if ts == [] then [] else TokenText(ts[0]) + Flatten(ts[1..])
  }

  /**
    The global scan: try the pattern at the current position; on a match,
    take it whole and resume after its closing quote, otherwise move on by
    one character.
   */
  function Tokens(s: string): seq<Token>
    decreases |s|
  {
    if s == [] then []
    else match MatchHere(s)
      case None => [Plain(s[0])] + Tokens(s[1..])
      case Some(h) => [Found(h, s[..h.len])] + Tokens(s[h.len..])
  }

  /** The scan loses nothing: its pieces put back together are the document. */
  lemma {:induction false} TokensLossless(s: string)
    ensures Flatten(Tokens(s)) == s
    decreases |s|
  {
    if s != [] {
      match MatchHere(s)
      case None =>
        TokensLossless(s[1..]);
        assert [s[0]] + s[1..] == s;
      case Some(h) =>
        TokensLossless(s[h.len..]);
        assert s[..h.len] + s[h.len..] == s;
    }
  }

  /** Every match the scan reports is a match of the pattern on its own text. */
  lemma {:induction false} TokensAreMatches(s: string)
    ensures forall k :: 0 <= k < |Tokens(s)| && Tokens(s)[k].Found? ==>
              IsMatch(Tokens(s)[k].text, Tokens(s)[k].h) && |Tokens(s)[k].text| == Tokens(s)[k].h.len
    decreases |s|
  {
    if s != [] {
      match MatchHere(s)
      case None =>
        TokensAreMatches(s[1..]);
      case Some(h) =>
        TokensAreMatches(s[h.len..]);
        assert s[..h.len][..h.len] == s[..h.len];
        IsMatchOnPrefix(s, s[..h.len], h);
    }
  }

  /** The value of every match is a piece of the document. */
  lemma {:induction false} TokenValuesOccur(s: string)
    ensures forall k :: 0 <= k < |Tokens(s)| && Tokens(s)[k].Found? ==> Occurs(Tokens(s)[k].h.value, s)
    decreases |s|
  {
    if s != [] {
      var ts := Tokens(s);
      var m := if MatchHere(s).Some? then MatchHere(s).value.len else 1;
      var rest := Tokens(s[m..]);
      assert ts[1..] == rest;
      TokenValuesOccur(s[m..]);
      if MatchHere(s).Some? {
        MatchValueOccurs(s, MatchHere(s).value);
      }
      forall k | 1 <= k < |ts| && ts[k].Found?
        ensures Occurs(ts[k].h.value, s)
      {
        assert ts[k] == rest[k - 1];
        OccursInSuffix(ts[k].h.value, s, m);
      }
    }
  }

  /** The scan of a document that continues at a line terminator is the scan of the two parts. */
  lemma {:induction false} TokensSplitAtLineTerminator(a: string, b: string)
    requires b != [] && IsLineTerminator(b[0])
    ensures Tokens(a + b) == Tokens(a) + Tokens(b)
    decreases |a|
  {
    if a == [] {
      assert a + b == b;
    } else {
      MatchHereStopsAtLineTerminator(a, b);
      match MatchHere(a)
      case None =>
        assert (a + b)[1..] == a[1..] + b;
        TokensSplitAtLineTerminator(a[1..], b);
      case Some(h) =>
        assert (a + b)[h.len..] == a[h.len..] + b;
        assert (a + b)[..h.len] == a[..h.len];
        TokensSplitAtLineTerminator(a[h.len..], b);
    }
  }

  /** Each character of `a` as a token of its own. */
  function Plains(a: string): (ts: seq<Token>)
    ensures |ts| == |a|
    ensures forall i :: 0 <= i < |a| ==> ts[i] == Plain(a[i])
  {
    seq(|a|, i requires 0 <= i < |a| => Plain(a[i]))
  }

  /** One unmatched character is one plain token. */
  lemma TokensNoMatchStep(s: string, c: char, t: string)
    requires s == [c] + t && MatchHere(s) == None
    ensures Tokens(s) == [Plain(c)] + Tokens(t)
  {
    assert s[1..] == t;
  }

  lemma PlainsCons(c: char, t: string)
    ensures Plains([c] + t) == [Plain(c)] + Plains(t)
  {
    assert forall i :: 1 <= i <= |t| ==> ([c] + t)[i] == t[i - 1];
  }

  lemma AppendAssociative<T>(x: seq<T>, y: seq<T>, z: seq<T>)
    ensures x + (y + z) == (x + y) + z
  {
  }

  /** Whatever follows it, an inert prefix is scanned character by character. */
  lemma {:induction false} TokensInertPrefix(a: string, b: string)
    requires Inert(a)
    ensures Tokens(a + b) == Plains(a) + Tokens(b)
    decreases |a|
  {
    if a == [] {
      assert a + b == b;
    } else {
      var c, t := a[0], a[1..];
      assert a == [c] + t;
      assert a + b == [c] + (t + b);
      assert Inert(t);
      NoMatchInInert(a, b);
      TokensNoMatchStep(a + b, c, t + b);
      TokensInertPrefix(t, b);
      PlainsCons(c, t);
      AppendAssociative([Plain(c)], Plains(t), Tokens(b));
    }
  }


  // ---------------------------------------------------------------------------
  // The callback's decision

  /** Values that already point outside the project and are left alone. */
  predicate IsExternal(value: string) {
    StartsWith(value, "http") || StartsWith(value, "data:") || StartsWith(value, "#")
  }

  /**
    What the callback materialises for a value: nothing for an external or
    unknown value, else the verbatim content of the first file with exactly
    that path, typed by the value's extension.
   */
  function Resolve(value: string, files: seq<FileData>): (r: Option<Blob>)
    ensures r.None? <==> IsExternal(value) || FindPath(files, value).None?
    ensures r.Some? ==> r.value == Blob(files[FindPath(files, value).value].content, GetMimeType(value))
  {
    if IsExternal(value) then None
    else match FindPath(files, value)
      case None => None
      case Some(k) => Some(Blob(files[k].content, GetMimeType(value)))
  }

  /** Copy a piece of text, or embed a blob behind the attribute `attr`. */
  datatype Step = Copy(text: string) | Embed(attr: string, blob: Blob)

  function Decide(t: Token, files: seq<FileData>): Step {
    match t
    case Plain(c) => Copy([c])
    case Found(h, text) =>
      match Resolve(h.value, files)
      case None => Copy(text)
      case Some(b) => Embed(h.attr, b)
  }

  /** The decision for every token, in order. */
  function Steps(ts: seq<Token>, files: seq<FileData>): (ps: seq<Step>)
    decreases |ts|, 1
  {
    if ts == [] then [] else StepsAtStart(ts, files)
  }

  /**
    The steps of a non-empty scan: the decision on its first token, then the
    rest.  Kept apart from `Steps` so that the verifier, unfolding `Steps`
    once, stops here instead of opening `Decide` and the next level too.
   */
  function StepsAtStart(ts: seq<Token>, files: seq<FileData>): (ps: seq<Step>)
    requires ts != []
    decreases |ts|, 0
  {
    [Decide(ts[0], files)] + Steps(ts[1..], files)
  }

  lemma {:induction false} StepsConcat(p: seq<Token>, q: seq<Token>, files: seq<FileData>)
    ensures Steps(p + q, files) == Steps(p, files) + Steps(q, files)
    decreases |p|
  {
    if p == [] {
      assert p + q == q;
    } else {
      assert (p + q)[0] == p[0];
      assert (p + q)[1..] == p[1..] + q;
      StepsConcat(p[1..], q, files);
    }
  }

  // ---------------------------------------------------------------------------
  // Emission

  /** The text that replaces a resolved match: always double-quoted. */
  function Reference(attr: string, url: string): string {
    attr + "=\"" + url + "\""
  }

  /** The rewritten text and, in order, the blobs materialised for it. */
  datatype Rewritten = Rewritten(text: string, made: seq<Blob>)

  /** Two rewrites one after the other: texts and blobs concatenated. */
  function Join(x: Rewritten, y: Rewritten): Rewritten {
    Rewritten(x.text + y.text, x.made + y.made)
  }

  /**
    Writing the output when the next object URL handed out will carry serial
    number `next`: copies are written as they are, an embedding is written as
    a reference to a fresh locator and its blob is registered.
   */
  function Emit(ps: seq<Step>, next: nat): Rewritten
    decreases |ps|, 1
  {
    if ps == [] then Rewritten([], []) else EmitAtStart(ps, next)
  }

  /**
    The output of a non-empty list of steps: its first step written, then the
    rest.  Kept apart from `Emit`, as `StepsAtStart` is from `Steps`, to bound
    how far the verifier unfolds the definition at once.
   */
  function EmitAtStart(ps: seq<Step>, next: nat): Rewritten
    requires ps != []
    decreases |ps|, 0
  {
    match ps[0]
    case Copy(text) =>
      var rest := Emit(ps[1..], next);
      Rewritten(text + rest.text, rest.made)
    case Embed(attr, b) =>
      var rest := Emit(ps[1..], next + 1);
      Rewritten(Reference(attr, Locator(next)) + rest.text, [b] + rest.made)
  }

  /** Emission is compositional, with the serial numbers carried on. */
  lemma {:induction false} EmitConcat(p: seq<Step>, q: seq<Step>, next: nat)
    ensures Emit(p + q, next) == Join(Emit(p, next), Emit(q, next + |Emit(p, next).made|))
    decreases |p|
  {
    if p == [] {
      assert p + q == q;
    } else {
      assert (p + q)[0] == p[0];
      assert (p + q)[1..] == p[1..] + q;
      match p[0]
      case Copy(_) => EmitConcat(p[1..], q, next);
      case Embed(_, _) => EmitConcat(p[1..], q, next + 1);
    }
  }

  /** One step of emission. */
  lemma EmitCons(p: Step, ps: seq<Step>, next: nat)
    ensures p.Copy? ==> Emit([p] + ps, next) == Join(Rewritten(p.text, []), Emit(ps, next))
    ensures p.Embed? ==>
              Emit([p] + ps, next) == Join(Rewritten(Reference(p.attr, Locator(next)), [p.blob]), Emit(ps, next + 1))
  {
    assert ([p] + ps)[1..] == ps;
  }

  /** Characters copied one by one come out as they went in. */
  lemma {:induction false} EmitPlains(a: string, files: seq<FileData>, next: nat)
    ensures Emit(Steps(Plains(a), files), next) == Rewritten(a, [])
    decreases |a|
  {
    if a != [] {
      assert Plains(a)[1..] == Plains(a[1..]);
      assert Steps(Plains(a), files) == [Copy([a[0]])] + Steps(Plains(a[1..]), files);
      EmitCons(Copy([a[0]]), Steps(Plains(a[1..]), files), next);
      EmitPlains(a[1..], files, next);
      assert [a[0]] + a[1..] == a;
    }
  }

  /** When nothing is registered, every token was copied verbatim. */
  lemma {:induction false} EmitWithoutBlobs(ts: seq<Token>, files: seq<FileData>, next: nat)
    ensures Emit(Steps(ts, files), next).made == [] ==> Emit(Steps(ts, files), next).text == Flatten(ts)
    decreases |ts|
  {
    if ts != [] {
      assert Steps(ts, files) == [Decide(ts[0], files)] + Steps(ts[1..], files);
      var d := Decide(ts[0], files);
      EmitCons(d, Steps(ts[1..], files), next);
      if d.Copy? {
        EmitWithoutBlobs(ts[1..], files, next);
      }
    }
  }

  /** When no match resolves, emission copies everything and registers nothing. */
  lemma {:induction false} EmitUnresolved(ts: seq<Token>, files: seq<FileData>, next: nat)
    requires forall k :: 0 <= k < |ts| && ts[k].Found? ==> Resolve(ts[k].h.value, files).None?
    ensures Emit(Steps(ts, files), next) == Rewritten(Flatten(ts), [])
    decreases |ts|
  {
    if ts != [] {
      assert Steps(ts, files) == [Decide(ts[0], files)] + Steps(ts[1..], files);
      EmitCons(Decide(ts[0], files), Steps(ts[1..], files), next);
      EmitUnresolved(ts[1..], files, next);
    }
  }

  /** The first file whose path is exactly its own: `files.find` lands on index `k`. */
  predicate FirstWithPath(files: seq<FileData>, k: nat) {
    k < |files| && FindPath(files, files[k].path) == Some(k)
  }

  /** Every registered blob is the verbatim content of a project file, typed by its path. */
  lemma {:induction false} EmitMaterialisesFiles(ts: seq<Token>, files: seq<FileData>, next: nat)
    ensures forall b :: b in Emit(Steps(ts, files), next).made ==>
              exists k: nat :: FirstWithPath(files, k) && b == Blob(files[k].content, GetMimeType(files[k].path))
    decreases |ts|
  {
    if ts != [] {
      assert Steps(ts, files) == [Decide(ts[0], files)] + Steps(ts[1..], files);
      var d := Decide(ts[0], files);
      EmitCons(d, Steps(ts[1..], files), next);
      if d.Copy? {
        EmitMaterialisesFiles(ts[1..], files, next);
      } else {
        EmitMaterialisesFiles(ts[1..], files, next + 1);
        var k := FindPath(files, ts[0].h.value).value;
        assert FirstWithPath(files, k);
      }
    }
  }

  // ---------------------------------------------------------------------------
  // The whole pass

  /**
    The output written for a scan, serial numbers starting at `next`: the
    rewrite of a text whose scan is already known, so that proofs about a
    split need not scan the parts again.
   */
  function EmitTokens(ts: seq<Token>, files: seq<FileData>, next: nat): Rewritten {
    Emit(Steps(ts, files), next)
  }

  /**
    The whole `replace` pass over `s`, when the next object URL handed out
    will carry serial number `next`: a match that resolves becomes
    `attr="locator"`, every other match and every other character is copied.
   */
  function Rewrite(s: string, files: seq<FileData>, next: nat): Rewritten {
    Emit(Steps(Tokens(s), files), next)
  }

  lemma RewriteEmpty(files: seq<FileData>, next: nat)
    ensures Rewrite([], files, next) == Rewritten([], [])
  {
  }

  /** Where no match starts, the first character is copied and the rest rewritten. */
  lemma RewriteCopiesChar(s: string, files: seq<FileData>, next: nat)
    requires s != [] && MatchHere(s).None?
    ensures Rewrite(s, files, next) == Join(Rewritten([s[0]], []), Rewrite(s[1..], files, next))
  {
    var ts := Tokens(s[1..]);
    assert Steps(Tokens(s), files) == [Copy([s[0]])] + Steps(ts, files);
    EmitCons(Copy([s[0]]), Steps(ts, files), next);
  }

  /** A match that is external or names no file is copied whole. */
  lemma RewriteCopiesMatch(s: string, files: seq<FileData>, next: nat, h: Hit)
    requires MatchHere(s) == Some(h) && Resolve(h.value, files).None?
    ensures Rewrite(s, files, next) == Join(Rewritten(s[..h.len], []), Rewrite(s[h.len..], files, next))
  {
    var ts := Tokens(s[h.len..]);
    assert Steps(Tokens(s), files) == [Copy(s[..h.len])] + Steps(ts, files);
    EmitCons(Copy(s[..h.len]), Steps(ts, files), next);
  }

  /**
    A match whose value names a project file becomes `attr="locator"`, the
    locator being the next one handed out, and its blob is registered.
   */
  lemma RewriteReplacesMatch(s: string, files: seq<FileData>, next: nat, h: Hit, blob: Blob)
    requires MatchHere(s) == Some(h) && Resolve(h.value, files) == Some(blob)
    ensures Rewrite(s, files, next) ==
              Join(Rewritten(Reference(h.attr, Locator(next)), [blob]), Rewrite(s[h.len..], files, next + 1))
  {
    var ts := Tokens(s[h.len..]);
    assert Tokens(s) == [Found(h, s[..h.len])] + ts;
    assert Decide(Found(h, s[..h.len]), files) == Embed(h.attr, blob);
    assert Steps(Tokens(s), files) == [Embed(h.attr, blob)] + Steps(ts, files);
    EmitCons(Embed(h.attr, blob), Steps(ts, files), next);
  }

  /** When no blob is materialised, the output is the input, character for character. */
  lemma RewriteWithoutBlobsIsIdentity(s: string, files: seq<FileData>, next: nat)
    ensures Rewrite(s, files, next).made == [] ==> Rewrite(s, files, next).text == s
  {
    EmitWithoutBlobs(Tokens(s), files, next);
    TokensLossless(s);
  }

  /**
    A document that mentions no file path comes out unchanged and
    materialises nothing (for instance `<script src="missing.js">` when there
    is no file `missing.js`).
   */
  lemma RewriteUnreferenced(s: string, files: seq<FileData>, next: nat)
    requires forall k :: 0 <= k < |files| ==> !Occurs(files[k].path, s)
    ensures Rewrite(s, files, next) == Rewritten(s, [])
  {
    var ts := Tokens(s);
    TokenValuesOccur(s);
    forall k | 0 <= k < |ts| && ts[k].Found?
      ensures Resolve(ts[k].h.value, files).None?
    {
      assert FindPath(files, ts[k].h.value).None?;
    }
    EmitUnresolved(ts, files, next);
    TokensLossless(s);
  }

  /**
    Every materialised blob carries the verbatim content of a project file,
    the first one with its path, typed by that path's extension.  Blob content
    is never itself scanned, so references inside it are left as they are.
   */
  lemma RewriteMaterialisesFileContents(s: string, files: seq<FileData>, next: nat)
    ensures forall b :: b in Rewrite(s, files, next).made ==>
              exists k: nat :: FirstWithPath(files, k) && b == Blob(files[k].content, GetMimeType(files[k].path))
  {
    EmitMaterialisesFiles(Tokens(s), files, next);
  }

  /**
    Rewriting splits at a line terminator: the part before it is rewritten as
    if it were the whole text, and the part from it on as if it were a new
    document, with the serial numbers continuing.
   */
  lemma {:induction false} RewriteSplitsAtLineTerminator(a: string, b: string, files: seq<FileData>, next: nat)
    requires b != [] && IsLineTerminator(b[0])
    ensures Rewrite(a + b, files, next) ==
              Join(Rewrite(a, files, next), Rewrite(b, files, next + |Rewrite(a, files, next).made|))
  {
    var ta, tb := Tokens(a), Tokens(b);
    EmitSplitsAtLineTerminator(a, b, ta, tb, files, next);
    RewritesOfScans(Rewrite(a + b, files, next), a, b, ta, tb, files, next);
  }

  /** Output written for the scans of two texts, one after the other, is their two rewrites joined. */
  lemma {:induction false} RewritesOfScans(r: Rewritten, a: string, b: string, ta: seq<Token>, tb: seq<Token>,
                                           files: seq<FileData>, next: nat)
    requires ta == Tokens(a) && tb == Tokens(b)
    requires r == Join(EmitTokens(ta, files, next), EmitTokens(tb, files, next + |EmitTokens(ta, files, next).made|))
    ensures r == Join(Rewrite(a, files, next), Rewrite(b, files, next + |Rewrite(a, files, next).made|))
  {
    var x := EmitTokens(ta, files, next);
    RewriteIsEmit(a, ta, files, next);
    RewriteIsEmit(b, tb, files, next + |x.made|);
    JoinOfRewrites(r, x, EmitTokens(tb, files, next + |x.made|), a, b, files, next);
  }


  /** The emitted output of the two scans, joined, is the two rewrites joined. */
  lemma {:induction false} JoinOfRewrites(r: Rewritten, x: Rewritten, y: Rewritten, a: string, b: string,
                                          files: seq<FileData>, next: nat)
    requires x == Rewrite(a, files, next)
    requires y == Rewrite(b, files, next + |x.made|)
    requires r == Join(x, y)
    ensures r == Join(Rewrite(a, files, next), Rewrite(b, files, next + |Rewrite(a, files, next).made|))
  {
  }

  /** Rewriting is emitting the steps of the scan. */
  lemma {:induction false} RewriteIsEmit(s: string, ts: seq<Token>, files: seq<FileData>, next: nat)
    requires ts == Tokens(s)
    ensures EmitTokens(ts, files, next) == Rewrite(s, files, next)
  {
  }

  /** The same split, stated on the scans `ta` and `tb` of the two parts. */
  lemma {:induction false} EmitSplitsAtLineTerminator(a: string, b: string, ta: seq<Token>, tb: seq<Token>,
                                                      files: seq<FileData>, next: nat)
    requires b != [] && IsLineTerminator(b[0])
    requires ta == Tokens(a) && tb == Tokens(b)
    ensures Rewrite(a + b, files, next) ==
              Join(EmitTokens(ta, files, next), EmitTokens(tb, files, next + |EmitTokens(ta, files, next).made|))
  {
    TokensSplitAtLineTerminator(a, b);
    RewriteOfTokens(a + b, ta, tb, files, next);
  }

  /** A text that scans as two token sequences one after the other rewrites as them. */
  lemma {:induction false} RewriteOfTokens(s: string, ta: seq<Token>, tb: seq<Token>, files: seq<FileData>, next: nat)
    requires Tokens(s) == ta + tb
    ensures Rewrite(s, files, next) ==
              Join(EmitTokens(ta, files, next), EmitTokens(tb, files, next + |EmitTokens(ta, files, next).made|))
  {
    EmitStepsConcat(ta, tb, files, next);
  }

  lemma EmitStepsConcat(ta: seq<Token>, tb: seq<Token>, files: seq<FileData>, next: nat)
    ensures EmitTokens(ta + tb, files, next) ==
              Join(EmitTokens(ta, files, next), EmitTokens(tb, files, next + |EmitTokens(ta, files, next).made|))
  {
    StepsConcat(ta, tb, files);
    EmitConcat(Steps(ta, files), Steps(tb, files), next);
  }

  /** An inert prefix is copied, whatever follows it. */
  lemma {:induction false} RewriteInertPrefix(a: string, b: string, files: seq<FileData>, next: nat)
    requires Inert(a)
    ensures Rewrite(a + b, files, next) == Join(Rewritten(a, []), Rewrite(b, files, next))
  {
    TokensInertPrefix(a, b);
    StepsConcat(Plains(a), Tokens(b), files);
    EmitConcat(Steps(Plains(a), files), Steps(Tokens(b), files), next);
    EmitPlains(a, files, next);
  }

  lemma JoinAssociative(x: Rewritten, y: Rewritten, z: Rewritten)
    ensures Join(Join(x, y), z) == Join(x, Join(y, z))
  {
    assert (x.text + y.text) + z.text == x.text + (y.text + z.text);
    assert (x.made + y.made) + z.made == x.made + (y.made + z.made);
  }

  lemma JoinNothing(y: Rewritten)
    ensures Join(Rewritten([], []), y) == y
  {
    assert [] + y.text == y.text && [] + y.made == y.made;
  }

  /** Two copied prefixes in a row are one copied prefix. */
  lemma JoinCopied(x: Rewritten, p: string, c: string, pc: string, y: Rewritten, z: Rewritten)
    requires pc == p + c
    requires x == Join(Rewritten(p, []), y) && y == Join(Rewritten(c, []), z)
    ensures x == Join(Rewritten(pc, []), z)
  {
  }

  /** `RewriteInertPrefix` for a text already written as the inert prefix and its rest. */
  lemma {:induction false} RewriteInertFront(p: string, rest: string, whole: string, files: seq<FileData>, next: nat)
    requires Inert(p) && whole == p + rest
    ensures Rewrite(whole, files, next) == Join(Rewritten(p, []), Rewrite(rest, files, next))
  {
    RewriteInertPrefix(p, rest, files, next);
  }

  /** An inert piece put before a copied prefix makes a longer copied prefix. */
  lemma {:induction false} RewriteInertStep(p: string, c: string, pc: string, b: string, files: seq<FileData>, next: nat)
    requires Inert(p) && pc == p + c
    requires Rewrite(c + b, files, next) == Join(Rewritten(c, []), Rewrite(b, files, next))
    ensures Rewrite(pc + b, files, next) == Join(Rewritten(pc, []), Rewrite(b, files, next))
  {
    AppendAssociative(p, c, b);
    RewriteInertFront(p, c + b, pc + b, files, next);
    JoinCopied(Rewrite(pc + b, files, next), p, c, pc, Rewrite(c + b, files, next), Rewrite(b, files, next));
  }

  /** Inert pieces, joined, pass through the rewrite as they are, whatever follows them. */
  lemma {:induction false} RewriteInertPieces(ps: seq<string>, k: nat, b: string, files: seq<FileData>, next: nat)
    requires k <= |ps| && forall j :: k <= j < |ps| ==> Inert(ps[j])
    ensures Rewrite(ConcatFrom(ps, k) + b, files, next) == Join(Rewritten(ConcatFrom(ps, k), []), Rewrite(b, files, next))
    decreases |ps| - k
  {
    if k < |ps| {
      RewriteInertPieces(ps, k + 1, b, files, next);
      RewriteInertStep(ps[k], ConcatFrom(ps, k + 1), ConcatFrom(ps, k), b, files, next);
    } else {
      assert ConcatFrom(ps, k) + b == b;
      JoinNothing(Rewrite(b, files, next));
    }
  }

  // ---------------------------------------------------------------------------
  // The inserted script survives the rewrite

  /** `script` passes through the rewrite as it is, whatever follows it and whatever the serial number. */
  ghost predicate PassesThrough(script: string, files: seq<FileData>)
  {
    forall post: string, n: nat :: Rewrite(script + post, files, n) == Join(Rewritten(script, []), Rewrite(post, files, n))
  }

  /** The fault-capture script passes through the rewrite as it is. */
  lemma ScriptSurvives(files: seq<FileData>)
    ensures PassesThrough(ErrorHandlingScript, files)
  {
    ScriptPiecesAreInert();
    forall post: string, n: nat
      ensures Rewrite(ErrorHandlingScript + post, files, n) == Join(Rewritten(ErrorHandlingScript, []), Rewrite(post, files, n))
    {
      RewriteInertPieces(ScriptPieces, 0, post, files, n);
    }
  }

  /**
    A script that opens with a line terminator and passes through the rewrite
    as it is: the text on either side of it is rewritten as if it were not there.
   */
  lemma RewriteAroundScript(pre: string, script: string, post: string, files: seq<FileData>, next: nat)
    requires script != [] && IsLineTerminator(script[0])
    requires PassesThrough(script, files)
    ensures Rewrite(pre + (script + post), files, next) ==
              Join(Rewrite(pre, files, next),
                   Join(Rewritten(script, []), Rewrite(post, files, next + |Rewrite(pre, files, next).made|)))
  {
    RewriteSplitsAtLineTerminator(pre, script + post, files, next);
  }

  /**
    The fault-capture script comes through the rewrite exactly as inserted,
    wherever it is put: nothing in it is taken for a reference, no match on
    the text before it runs into it, and the text on either side is rewritten
    as if it were not there, with the serial numbers carried on.
   */
  lemma RewriteKeepsErrorHandler(pre: string, post: string, files: seq<FileData>, next: nat)
    ensures Rewrite(pre + (ErrorHandlingScript + post), files, next) ==
              Join(Rewrite(pre, files, next),
                   Join(Rewritten(ErrorHandlingScript, []), Rewrite(post, files, next + |Rewrite(pre, files, next).made|)))
  {
    ScriptStartsWithNewline();
    ScriptSurvives(files);
    RewriteAroundScript(pre, ErrorHandlingScript, post, files, next);
  }
}
