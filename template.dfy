/**
 * Python's `string.Template.substitute`, the primitive behind `!template`,
 * `!optional_template` and include paths, written as a scanner, and
 * labgrid's `OptionalTemplate.substitute` on top of it.
 *
 * The placeholder grammar: `$$` is an escaped `$`; `$id` and `${id}` name a
 * variable, where an identifier is `[_A-Za-z][_A-Za-z0-9]*` (the pattern is
 * matched case-insensitively in ASCII mode); any other `$` is an invalid
 * placeholder (ValueError). A named variable missing from the mapping raises
 * KeyError. Placeholders are handled left to right, so the first offending
 * placeholder decides which error is raised.
 */
module StringTemplate {
  import opened YamlTree

  predicate IsIdStart(c: char)
  {
    c == '_' || 'a' <= c <= 'z' || 'A' <= c <= 'Z'
  }

  predicate IsIdChar(c: char)
  {
    IsIdStart(c) || '0' <= c <= '9'
  }

  predicate IsIdent(s: string)
  {
    |s| > 0 && IsIdStart(s[0]) && forall i :: 1 <= i < |s| ==> IsIdChar(s[i])
  }

  /** End of the longest run of identifier characters that starts at `i`. */
  function IdentEnd(t: string, i: nat): (j: nat)
    requires i <= |t|
    ensures i <= j <= |t|
    ensures j == |t| || !IsIdChar(t[j])
    decreases |t| - i
  {
    if i < |t| && IsIdChar(t[i]) then IdentEnd(t, i + 1) else i
  }

  /** Everything `IdentEnd` skips over is an identifier character. */
  lemma {:induction false} IdentEndChars(t: string, i: nat)
    requires i <= |t|
    ensures forall k :: i <= k < IdentEnd(t, i) ==> IsIdChar(t[k])
    decreases |t| - i
  {
    if i < |t| && IsIdChar(t[i]) {
      IdentEndChars(t, i + 1);
    }
  }

  /** ValueError carries the position of the offending `$`; KeyError the variable name. */
  datatype TemplateError = Invalid(at: nat) | Missing(name: string, at: nat)

  function Prepend(s: string, r: Result<string, TemplateError>): Result<string, TemplateError>
  {
    match r
    case Ok(v) => Ok(s + v)
    case Err(e) => Err(e)
  }

  /** What the pattern matches at position `i`: an ordinary character, `$$`, a
      variable whose name is `t[start..end]` (scanning resumes at `next`), or an
      invalid placeholder. */
  datatype Token = Literal | Escaped | Var(start: nat, end: nat, next: nat) | Bad

  function TokenAt(t: string, i: nat): (k: Token)
    requires i < |t|
    ensures k.Literal? <==> t[i] != '$'
    ensures k.Escaped? ==> i + 2 <= |t|
    ensures k.Var? ==> i < k.start < k.end <= k.next <= |t|
    ensures !k.Bad? ==> i < TokenNext(i, k) <= |t|
  {
    if t[i] != '$' then Literal
    else if i + 1 < |t| && t[i + 1] == '$' then Escaped
    else if i + 1 < |t| && IsIdStart(t[i + 1]) then
      var j := IdentEnd(t, i + 1);
      Var(i + 1, j, j)
    else if i + 2 < |t| && t[i + 1] == '{' && IsIdStart(t[i + 2])
         && IdentEnd(t, i + 2) < |t| && t[IdentEnd(t, i + 2)] == '}' then
      var j := IdentEnd(t, i + 2);
      Var(i + 2, j, j + 1)
    else Bad
  }

  /** A variable token's name is an identifier. */
  lemma TokenIdent(t: string, i: nat)
    requires i < |t| && TokenAt(t, i).Var?
    ensures IsIdent(t[TokenAt(t, i).start..TokenAt(t, i).end])
  {
    var k := TokenAt(t, i);
    IdentEndChars(t, k.start);
    IdentSlice(t, k.start, k.end);
  }

  lemma IdentSlice(t: string, a: nat, b: nat)
    requires a < b <= |t| && IsIdStart(t[a])
    requires forall k :: a <= k < b ==> IsIdChar(t[k])
    ensures IsIdent(t[a..b])
  {
    var s := t[a..b];
    forall k | 1 <= k < |s| ensures IsIdChar(s[k]) {
      assert s[k] == t[a + k];
    }
  }

  /** Where scanning resumes after a token found at `i`. */
  function TokenNext(i: nat, k: Token): nat
  {
    match k
    case Literal => i + 1
    case Escaped => i + 2
    case Var(_, _, next) => next
    case Bad => i
  }

  /** The text a token found at `i` stands for; a variable must be in `m`. */
  function TokenText(t: string, i: nat, k: Token, m: map<string, string>): string
    requires i < |t|
    requires k.Var? ==> k.start <= k.end <= |t| && t[k.start..k.end] in m
  {
    match k
    case Literal => [t[i]]
    case Escaped => "$"
    case Var(a, b, _) => m[t[a..b]]
    case Bad => ""
  }

  /** Substitution of `t[i..]`; error positions are indices into `t`. */
  function Scan(t: string, i: nat, m: map<string, string>): (r: Result<string, TemplateError>)
    requires i <= |t|
    ensures r.Err? && r.error.Missing? ==> r.error.name !in m
    ensures r.Err? && r.error.Invalid? ==> i <= r.error.at < |t| && t[r.error.at] == '$'
    decreases |t| - i
  {
    if i == |t| then Ok("")
    else
      var k := TokenAt(t, i);
      if k.Bad? then Err(Invalid(i))
      else TokenStep(t, i, k, m, Scan(t, TokenNext(i, k), m))
  }

  /** What a valid token found at `i` contributes in front of the outcome `rest` of the
      text after it: a variable missing from `m` is the error, reported where its name
      starts, before anything after it is looked at. */
  function TokenStep(t: string, i: nat, k: Token, m: map<string, string>, rest: Result<string, TemplateError>)
    : Result<string, TemplateError>
    requires i < |t|
    requires k.Var? ==> k.start <= k.end <= |t|
  {
    if k.Var? && t[k.start..k.end] !in m then Err(Missing(t[k.start..k.end], k.start))
    else Prepend(TokenText(t, i, k, m), rest)
  }

  /** `Template(t).substitute(m)`. */
  function Substitute(t: string, m: map<string, string>): (r: Result<string, TemplateError>)
    ensures r.Err? && r.error.Missing? ==> r.error.name !in m
    ensures r.Err? && r.error.Invalid? ==> r.error.at < |t| && t[r.error.at] == '$'
  {
    Scan(t, 0, m)
  }

  /** Every identifier that occurs in `t`: a missing variable is always one of them. */
  function Idents(t: string): set<string>
  {
    set a, b | 0 <= a <= b <= |t| && IsIdent(t[a..b]) :: t[a..b]
  }

  /** A KeyError names an identifier that occurs in the template at the reported place. */
  lemma {:induction false} ScanMissing(t: string, i: nat, m: map<string, string>)
    requires i <= |t|
    requires Scan(t, i, m).Err? && Scan(t, i, m).error.Missing?
    ensures var e := Scan(t, i, m).error;
      && IsIdent(e.name) && i <= e.at && e.at + |e.name| <= |t|
      && t[e.at..e.at + |e.name|] == e.name
    decreases |t| - i
  {
    var k := TokenAt(t, i);
    if !(k.Var? && t[k.start..k.end] !in m) {
      ScanMissing(t, TokenNext(i, k), m);
    } else {
      TokenIdent(t, i);
    }
  }

  lemma MissingIsIdent(t: string, m: map<string, string>)
    requires Substitute(t, m).Err? && Substitute(t, m).error.Missing?
    ensures Substitute(t, m).error.name in Idents(t)
    ensures Substitute(t, m).error.name !in m
  {
    ScanMissing(t, 0, m);
    var e := Substitute(t, m).error;
    assert t[e.at..e.at + |e.name|] == e.name;
  }

  /** `m2` agrees with `m1` on every key of `m1`. */
  predicate Extends(m2: map<string, string>, m1: map<string, string>)
  {
    forall k :: k in m1 ==> k in m2 && m2[k] == m1[k]
  }

  /** Substitution does not look at keys it never reaches: a larger mapping gives the
      same outcome unless the smaller one was missing a variable. */
  lemma {:induction false} ScanMonotone(t: string, i: nat, m1: map<string, string>, m2: map<string, string>)
    requires i <= |t|
    requires Extends(m2, m1)
    requires !(Scan(t, i, m1).Err? && Scan(t, i, m1).error.Missing?)
    ensures Scan(t, i, m2) == Scan(t, i, m1)
    decreases |t| - i
  {
    if i < |t| {
      var k := TokenAt(t, i);
      if !k.Bad? {
        ScanMonotone(t, TokenNext(i, k), m1, m2);
      }
    }
  }

  /** The mapping `OptionalTemplate.substitute` ends up with, at most: the caller's
      mapping plus every identifier of the template it lacks, bound to ''. */
  function WithBlanks(t: string, m: map<string, string>): (r: map<string, string>)
    ensures Extends(r, m)
    ensures forall x :: x in Idents(t) ==> x in r
  {
    map x | x in Idents(t) + m.Keys :: if x in m then m[x] else ""
  }

  /** The ext mapping of the loop: the caller's mapping plus some blanks for identifiers of `t`. */
  ghost predicate BlankExtension(ext: map<string, string>, m: map<string, string>, t: string)
  {
    && Extends(ext, m)
    && forall k :: k in ext && k !in m ==> k in Idents(t) && ext[k] == ""
  }

  /** labgrid's `OptionalTemplate.substitute`: retry with each missing variable bound to ''
      until nothing is missing. The caller's mapping is a value and is never changed. */
  method OptionalSubstitute(t: string, m: map<string, string>) returns (r: Result<string, TemplateError>)
    ensures r == Substitute(t, WithBlanks(t, m))
    ensures !(r.Err? && r.error.Missing?)
  {
    var ext := m;
    r := Substitute(t, ext);
    while r.Err? && r.error.Missing?
      invariant BlankExtension(ext, m, t)
      invariant r == Substitute(t, ext)
      decreases |Idents(t) - ext.Keys|
    {
      MissingIsIdent(t, ext);
      ext := AddBlank(t, m, ext, r.error.name);
      r := Substitute(t, ext);
    }
    BlanksSettle(t, m, ext);
  }

  /** Once the retries stop, the outcome is the one the full blank mapping gives. */
  lemma BlanksSettle(t: string, m: map<string, string>, ext: map<string, string>)
    requires BlankExtension(ext, m, t)
    requires !(Substitute(t, ext).Err? && Substitute(t, ext).error.Missing?)
    ensures Substitute(t, ext) == Substitute(t, WithBlanks(t, m))
  {
    var full := WithBlanks(t, m);
    forall k | k in ext ensures k in full && full[k] == ext[k] {
      if k !in m {
        assert k in Idents(t);
      }
    }
    ScanMonotone(t, 0, ext, full);
  }

  /** One retry: bind the missing variable to ''. The pending identifiers shrink. */
  function AddBlank(t: string, m: map<string, string>, ext: map<string, string>, name: string)
    : (ext': map<string, string>)
    requires BlankExtension(ext, m, t)
    requires name in Idents(t) && name !in ext
    ensures BlankExtension(ext', m, t)
    ensures |Idents(t) - ext'.Keys| < |Idents(t) - ext.Keys|
  {
    var ext' := ext[name := ""];
    assert Idents(t) - ext'.Keys == (Idents(t) - ext.Keys) - {name};
    ext'
  }

  lemma NeverMissingWithBlanks(t: string, m: map<string, string>)
    ensures !(Substitute(t, WithBlanks(t, m)).Err? && Substitute(t, WithBlanks(t, m)).error.Missing?)
  {
    if Substitute(t, WithBlanks(t, m)).Err? && Substitute(t, WithBlanks(t, m)).error.Missing? {
      MissingIsIdent(t, WithBlanks(t, m));
      assert false;
    }
  }

  /** Where the strict substitution succeeds (or reports a bad placeholder), the
      optional one gives exactly the same outcome. */
  lemma OptionalAgreesWithStrict(t: string, m: map<string, string>)
    requires !(Substitute(t, m).Err? && Substitute(t, m).error.Missing?)
    ensures Substitute(t, WithBlanks(t, m)) == Substitute(t, m)
  {
    ScanMonotone(t, 0, m, WithBlanks(t, m));
  }

  // ---------------------------------------------------------------------------
  // A structured reference: a template written as pieces, and what it expands to.

  datatype Piece = Text(c: char) | Dollar | Named(id: string) | Braced(id: string)

  function RenderPiece(p: Piece): (s: string)
    ensures |s| > 0
  {
    match p
    case Text(c) => [c]
    case Dollar => "$$"
    case Named(id) => "$" + id
    case Braced(id) => "${" + id + "}"
  }

  function Render(ps: seq<Piece>): string
  {
    if ps == [] then "" else RenderPiece(ps[0]) + Render(ps[1..])
  }

  /** Pieces whose rendering reads back as the same pieces: literal text holds no `$`,
      names are identifiers, and no identifier character runs on after `$id`. */
  predicate ValidPieces(ps: seq<Piece>)
  {
    ps != [] ==>
      && (ps[0].Text? ==> ps[0].c != '$')
      && ((ps[0].Named? || ps[0].Braced?) ==> IsIdent(ps[0].id))
      && (ps[0].Named? && |ps| > 1 ==> !(ps[1].Text? && IsIdChar(ps[1].c)))
      && ValidPieces(ps[1..])
  }

  /** What a piece written at `at` contributes in front of the outcome `rest` of the
      pieces after it; a variable missing from `m` is reported where its name starts. */
  function PieceStep(p: Piece, m: map<string, string>, at: nat, rest: Result<string, TemplateError>)
    : Result<string, TemplateError>
  {
    match p
    case Text(c) => Prepend([c], rest)
    case Dollar => Prepend("$", rest)
    case Named(id) => if id in m then Prepend(m[id], rest) else Err(Missing(id, at + 1))
    case Braced(id) => if id in m then Prepend(m[id], rest) else Err(Missing(id, at + 2))
  }

  /** The reference meaning of pieces written from position `at`: text and `$$` stand for
      themselves, a variable for its value, and the first variable missing from `m` is
      the error. An invalid placeholder cannot be written as pieces. */
  function Expand(ps: seq<Piece>, m: map<string, string>, at: nat): (r: Result<string, TemplateError>)
    ensures r.Err? ==> r.error.Missing? && r.error.name !in m
  {
    if ps == [] then Ok("")
    else PieceStep(ps[0], m, at, Expand(ps[1..], m, at + |RenderPiece(ps[0])|))
  }

  /** The variable a failed expansion reports is one the pieces name. */
  lemma {:induction false} ExpandNamesPiece(ps: seq<Piece>, m: map<string, string>, at: nat)
    ensures Expand(ps, m, at).Err? ==> Expand(ps, m, at).error.name in PieceIds(ps)
    decreases ps
  {
    if ps != [] {
      ExpandNamesPiece(ps[1..], m, at + |RenderPiece(ps[0])|);
    }
  }

  /** The variables named by the pieces. */
  function PieceIds(ps: seq<Piece>): set<string>
  {
    if ps == [] then {}
    else (if ps[0].Named? || ps[0].Braced? then {ps[0].id} else {}) + PieceIds(ps[1..])
  }

  lemma IdentEndAt(t: string, a: nat, b: nat)
    requires a <= b <= |t|
    requires forall k :: a <= k < b ==> IsIdChar(t[k])
    requires b == |t| || !IsIdChar(t[b])
    ensures IdentEnd(t, a) == b
    decreases b - a
  {
    if a < b {
      IdentEndAt(t, a + 1, b);
    }
  }

  /** The token the scanner finds where a piece is written. */
  function PieceToken(p: Piece, i: nat): Token
  {
    match p
    case Text(_) => Literal
    case Dollar => Escaped
    case Named(id) => Var(i + 1, i + 1 + |id|, i + 1 + |id|)
    case Braced(id) => Var(i + 2, i + 2 + |id|, i + 3 + |id|)
  }

  lemma TokenOfNamed(t: string, i: nat, id: string)
    requires IsIdent(id) && i + 1 + |id| <= |t| && t[i..i + 1 + |id|] == "$" + id
    requires i + 1 + |id| == |t| || !IsIdChar(t[i + 1 + |id|])
    ensures TokenAt(t, i) == Var(i + 1, i + 1 + |id|, i + 1 + |id|)
    ensures t[i + 1..i + 1 + |id|] == id
  {
    var w := t[i..i + 1 + |id|];
    assert forall k :: i + 1 <= k < i + 1 + |id| ==> t[k] == w[k - i];
    assert w[1..] == id;
    assert t[i + 1..i + 1 + |id|] == w[1..];
    IdentEndAt(t, i + 1, i + 1 + |id|);
    assert t[i + 1] == id[0];
  }

  lemma TokenOfBraced(t: string, i: nat, id: string)
    requires IsIdent(id) && i + 3 + |id| <= |t| && t[i..i + 3 + |id|] == "${" + id + "}"
    ensures TokenAt(t, i) == Var(i + 2, i + 2 + |id|, i + 3 + |id|)
    ensures t[i + 2..i + 2 + |id|] == id
  {
    var w := t[i..i + 3 + |id|];
    assert forall k :: i <= k < i + 3 + |id| ==> t[k] == w[k - i];
    assert w[2..2 + |id|] == id;
    assert t[i + 2..i + 2 + |id|] == w[2..2 + |id|];
    IdentEndAt(t, i + 2, i + 2 + |id|);
    assert t[i + 2] == id[0];
  }

  /** Where a valid piece is written at `i`, the scanner finds its token and the name in it. */
  lemma TokenOfPiece(t: string, i: nat, p: Piece)
    requires i + |RenderPiece(p)| <= |t| && t[i..i + |RenderPiece(p)|] == RenderPiece(p)
    requires p.Text? ==> p.c != '$'
    requires p.Named? || p.Braced? ==> IsIdent(p.id)
    requires p.Named? ==> i + |RenderPiece(p)| == |t| || !IsIdChar(t[i + |RenderPiece(p)|])
    ensures TokenAt(t, i) == PieceToken(p, i)
    ensures p.Text? ==> t[i] == p.c
    ensures p.Named? ==> t[i + 1..i + 1 + |p.id|] == p.id
    ensures p.Braced? ==> t[i + 2..i + 2 + |p.id|] == p.id
  {
    assert t[i] == RenderPiece(p)[0];
    match p
    case Text(c) =>
    case Dollar =>
      assert t[i + 1] == RenderPiece(p)[1];
    case Named(id) => TokenOfNamed(t, i, id);
    case Braced(id) => TokenOfBraced(t, i, id);
  }

  lemma RenderSplit(t: string, i: nat, ps: seq<Piece>)
    requires ps != [] && i <= |t| && t[i..] == Render(ps)
    ensures i + |RenderPiece(ps[0])| <= |t|
    ensures t[i..i + |RenderPiece(ps[0])|] == RenderPiece(ps[0])
    ensures t[i + |RenderPiece(ps[0])|..] == Render(ps[1..])
  {
    var u := RenderPiece(ps[0]);
    assert t[i..] == u + Render(ps[1..]);
    assert t[i..][..|u|] == u;
    assert t[i..][|u|..] == Render(ps[1..]);
  }

  /** The text reads `s` from position `i` on. */
  predicate ReadsAt(t: string, i: nat, s: string)
    decreases s
  {
    if s == [] then i <= |t| else i < |t| && t[i] == s[0] && ReadsAt(t, i + 1, s[1..])
  }

  lemma {:induction false} ReadsAtSlice(t: string, i: nat, s: string)
    ensures ReadsAt(t, i, s) <==> i + |s| <= |t| && t[i..i + |s|] == s
    decreases s
  {
    if s != [] {
      ReadsAtSlice(t, i + 1, s[1..]);
      if i + |s| <= |t| {
        assert t[i..i + |s|] == [t[i]] + t[i + 1..i + |s|];
      }
    }
  }

  /** Piece `p` is written at `i`, and what follows cannot run on into it. */
  predicate PieceFound(t: string, i: nat, p: Piece)
  {
    match p
    case Text(c) => c != '$' && Written(t, i, p)
    case Dollar => Written(t, i, p)
    case Named(id) =>
      IsIdent(id) && Written(t, i, p) && (i + 1 + |id| == |t| || !IsIdChar(t[i + 1 + |id|]))
    case Braced(id) => IsIdent(id) && Written(t, i, p)
  }

  /** The rendering of `p` stands in the text at `i`. */
  predicate Written(t: string, i: nat, p: Piece)
  {
    i + |RenderPiece(p)| <= |t| && ReadsAt(t, i, RenderPiece(p))
  }

  /** A piece found at `i` is the slice of the text it covers. */
  lemma FoundWritten(t: string, i: nat, p: Piece)
    requires PieceFound(t, i, p)
    ensures i + |RenderPiece(p)| <= |t| && t[i..i + |RenderPiece(p)|] == RenderPiece(p)
  {
    ReadsAtSlice(t, i, RenderPiece(p));
  }

  /** The text from `i` on is exactly the pieces `ps`, each written where it is found. */
  predicate Lexes(t: string, i: nat, ps: seq<Piece>)
    decreases ps
  {
    if ps == [] then i == |t|
    else PieceFound(t, i, ps[0]) && Lexes(t, i + |RenderPiece(ps[0])|, ps[1..])
  }

  /** Scanning a piece found at `i` does what the reference does with it. */
  lemma ScanPiece(t: string, i: nat, p: Piece, m: map<string, string>, rest: Result<string, TemplateError>)
    requires PieceFound(t, i, p) && Scan(t, i + |RenderPiece(p)|, m) == rest
    ensures Scan(t, i, m) == PieceStep(p, m, i, rest)
  {
    FoundWritten(t, i, p);
    TokenOfPiece(t, i, p);
    PieceTokenNext(p, i);
    TokenStepPiece(t, i, p, m, rest);
  }

  /** Scanning resumes right after the piece. */
  lemma PieceTokenNext(p: Piece, i: nat)
    ensures TokenNext(i, PieceToken(p, i)) == i + |RenderPiece(p)|
  {
    match p
    case Text(_) =>
    case Dollar =>
    case Named(id) => assert |RenderPiece(p)| == 1 + |id|;
    case Braced(id) => assert |RenderPiece(p)| == 3 + |id|;
  }

  /** The scanner's step on a piece's token is the reference step on the piece. */
  lemma TokenStepPiece(t: string, i: nat, p: Piece, m: map<string, string>, rest: Result<string, TemplateError>)
    requires i + |RenderPiece(p)| <= |t|
    requires p.Text? ==> t[i] == p.c
    requires p.Named? ==> t[i + 1..i + 1 + |p.id|] == p.id
    requires p.Braced? ==> t[i + 2..i + 2 + |p.id|] == p.id
    ensures PieceToken(p, i).Var? ==> PieceToken(p, i).start <= PieceToken(p, i).end <= |t|
    ensures TokenStep(t, i, PieceToken(p, i), m, rest) == PieceStep(p, m, i, rest)
  {
    match p
    case Text(_) =>
    case Dollar =>
    case Named(id) => assert |RenderPiece(p)| == 1 + |id|;
    case Braced(id) => assert |RenderPiece(p)| == 3 + |id|;
  }

  /** On text it reads as pieces, the scanner computes the reference expansion. */
  lemma {:induction false} ScanLexed(t: string, i: nat, ps: seq<Piece>, m: map<string, string>)
    requires i <= |t| && Lexes(t, i, ps)
    ensures Scan(t, i, m) == Expand(ps, m, i)
    decreases ps
  {
    if ps != [] {
      var j := i + |RenderPiece(ps[0])|;
      assert PieceFound(t, i, ps[0]) && Lexes(t, j, ps[1..]);
      ScanLexed(t, j, ps[1..], m);
      var rest := Expand(ps[1..], m, j);
      ScanPiece(t, i, ps[0], m, rest);
      ExpandStep(ps, m, i, rest);
    }
  }

  /** Expanding pieces, given what the pieces after the first expand to. */
  lemma ExpandStep(ps: seq<Piece>, m: map<string, string>, i: nat, rest: Result<string, TemplateError>)
    requires ps != [] && Expand(ps[1..], m, i + |RenderPiece(ps[0])|) == rest
    ensures Expand(ps, m, i) == PieceStep(ps[0], m, i, rest)
  {
  }

  /** Well-formed pieces, wherever they are written, are read back as themselves. */
  lemma {:induction false} RenderLexes(t: string, i: nat, ps: seq<Piece>)
    requires i <= |t| && t[i..] == Render(ps) && ValidPieces(ps)
    ensures Lexes(t, i, ps)
    decreases ps
  {
    if ps == [] {
      assert i == |t|;
      return;
    }
    RenderSplit(t, i, ps);
    RenderLexes(t, i + |RenderPiece(ps[0])|, ps[1..]);
    FirstPiece(t, i, ps);
  }

  /** The first piece of a rendering is found where it is written, so the text reads as
      the pieces once the rest does. */
  lemma FirstPiece(t: string, i: nat, ps: seq<Piece>)
    requires ps != [] && i <= |t| && t[i..] == Render(ps) && ValidPieces(ps)
    requires Lexes(t, i + |RenderPiece(ps[0])|, ps[1..])
    ensures Lexes(t, i, ps)
  {
    RenderSplit(t, i, ps);
    NoRunOn(t, i + |RenderPiece(ps[0])|, ps);
    ReadsAtSlice(t, i, RenderPiece(ps[0]));
  }

  /** After `$id`, the text goes on with something other than an identifier character. */
  lemma NoRunOn(t: string, j: nat, ps: seq<Piece>)
    requires ps != [] && j <= |t| && t[j..] == Render(ps[1..]) && ValidPieces(ps)
    ensures ps[0].Named? && j < |t| ==> !IsIdChar(t[j])
  {
    if ps[0].Named? && j < |t| {
      assert ps[1..] != [];
      assert t[j] == Render(ps[1..])[0];
    }
  }

  /** Substituting into a rendered template is expanding its pieces: a well-formed
      template never raises ValueError, and raises KeyError for exactly the first
      variable the mapping lacks, at the place it is written. */
  lemma SubstituteRender(ps: seq<Piece>, m: map<string, string>)
    requires ValidPieces(ps)
    ensures Substitute(Render(ps), m) == Expand(ps, m, 0)
  {
    RenderLexes(Render(ps), 0, ps);
    ScanLexed(Render(ps), 0, ps, m);
  }

  // ---------------------------------------------------------------------------
  // The converse: what the scanner reads as tokens, read back as pieces.

  /** The piece a token found at `i` is written as: `$id` when scanning resumes right
      after the name, `${id}` when it resumes after the closing brace. */
  function TokenPiece(t: string, i: nat, k: Token): Piece
    requires i < |t|
    requires k.Var? ==> k.start <= k.end <= |t|
  {
    match k
    case Literal => Text(t[i])
    case Escaped => Dollar
    case Var(a, b, next) => if next == b then Named(t[a..b]) else Braced(t[a..b])
    case Bad => Text(t[i])
  }

  /** `t[i..]` read token by token as pieces; `None` where an invalid placeholder is met. */
  function Pieces(t: string, i: nat): Option<seq<Piece>>
    requires i <= |t|
    decreases |t| - i
  {
    if i == |t| then Some([])
    else
      var k := TokenAt(t, i);
      if k.Bad? then None
      else
        match Pieces(t, TokenNext(i, k))
        case None => None
        case Some(rest) => Some([TokenPiece(t, i, k)] + rest)
  }

  /** A token the scanner accepts is a valid piece, written where it was found and
      exactly as long as the text the scanner skips. */
  lemma PieceAt(t: string, i: nat)
    requires i < |t| && !TokenAt(t, i).Bad?
    ensures var k := TokenAt(t, i);
      PieceFound(t, i, TokenPiece(t, i, k)) && i + |RenderPiece(TokenPiece(t, i, k))| == TokenNext(i, k)
  {
    var k := TokenAt(t, i);
    var p := TokenPiece(t, i, k);
    match k
    case Literal =>
      ReadsAtSlice(t, i, RenderPiece(p));
    case Escaped =>
      ReadsAtSlice(t, i, RenderPiece(p));
    case Var(a, b, next) =>
      TokenIdent(t, i);
      if next == b {
        NamedWritten(t, i, b);
      } else {
        BracedWritten(t, i, b);
      }
      ReadsAtSlice(t, i, RenderPiece(p));
    case Bad =>
  }

  lemma NamedWritten(t: string, i: nat, b: nat)
    requires i < b <= |t| && t[i] == '$'
    ensures t[i..b] == "$" + t[i + 1..b]
  {
    assert t[i..b] == [t[i]] + t[i + 1..b];
  }

  lemma BracedWritten(t: string, i: nat, b: nat)
    requires i + 2 <= b < |t| && t[i] == '$' && t[i + 1] == '{' && t[b] == '}'
    ensures t[i..b + 1] == "${" + t[i + 2..b] + "}"
  {
    assert t[i..b + 1] == [t[i], t[i + 1]] + t[i + 2..b] + [t[b]];
  }

  /** The pieces read from `t[i..]` are found one after another up to the end. */
  lemma {:induction false} PiecesLex(t: string, i: nat)
    requires i <= |t| && Pieces(t, i).Some?
    ensures Lexes(t, i, Pieces(t, i).value)
    decreases |t| - i
  {
    if i < |t| {
      var k := TokenAt(t, i);
      PiecesLex(t, TokenNext(i, k));
      PieceAt(t, i);
      var ps := Pieces(t, i).value;
      assert ps[0] == TokenPiece(t, i, k) && ps[1..] == Pieces(t, TokenNext(i, k)).value;
    }
  }

  /** Pieces found one after another render the text they cover. */
  lemma {:induction false} LexesRender(t: string, i: nat, ps: seq<Piece>)
    requires Lexes(t, i, ps)
    ensures i <= |t| && Render(ps) == t[i..]
    decreases ps
  {
    if ps != [] {
      var j := i + |RenderPiece(ps[0])|;
      LexesRender(t, j, ps[1..]);
      FoundWritten(t, i, ps[0]);
      SliceSplit(t, i, j);
      assert Render(ps) == RenderPiece(ps[0]) + Render(ps[1..]);
    }
  }

  lemma SliceSplit(t: string, i: nat, j: nat)
    requires i <= j <= |t|
    ensures t[i..] == t[i..j] + t[j..]
  {
  }

  /** Pieces found one after another are well formed: in particular no identifier
      character follows a `$id`, or the scanner would have read it as part of the name. */
  lemma {:induction false} LexesValid(t: string, i: nat, ps: seq<Piece>)
    requires Lexes(t, i, ps)
    ensures ValidPieces(ps)
    decreases ps
  {
    if ps != [] {
      var j := i + |RenderPiece(ps[0])|;
      LexesValid(t, j, ps[1..]);
      if ps[0].Named? && |ps| > 1 && ps[1].Text? {
        FoundWritten(t, j, ps[1]);
        assert t[j] == RenderPiece(ps[1])[0];
      }
    }
  }

  /** Where the text cannot be read as pieces, the scanner fails: with ValueError at
      the first invalid placeholder, or earlier with KeyError. */
  lemma {:induction false} NoPiecesFails(t: string, i: nat, m: map<string, string>)
    requires i <= |t| && Pieces(t, i).None?
    ensures Scan(t, i, m).Err?
    decreases |t| - i
  {
    var k := TokenAt(t, i);
    if !k.Bad? && !(k.Var? && t[k.start..k.end] !in m) {
      NoPiecesFails(t, TokenNext(i, k), m);
    }
  }

  /** The variables a failing expansion lacks: it succeeds exactly when `m` binds every
      name the pieces use. */
  lemma {:induction false} ExpandOk(ps: seq<Piece>, m: map<string, string>, at: nat)
    ensures Expand(ps, m, at).Ok? <==> PieceIds(ps) <= m.Keys
    decreases ps
  {
    if ps != [] {
      ExpandOk(ps[1..], m, at + |RenderPiece(ps[0])|);
    }
  }

  /** Substitution succeeds exactly when the template can be written as well-formed
      pieces whose variables `m` binds; so every `$` that starts no `$$`, `$id` or
      `${id}` makes it fail. */
  lemma SubstituteOkIff(t: string, m: map<string, string>)
    ensures Substitute(t, m).Ok? <==>
      exists ps :: ValidPieces(ps) && Render(ps) == t && PieceIds(ps) <= m.Keys
  {
    if Pieces(t, 0).Some? {
      var ps := Pieces(t, 0).value;
      PiecesLex(t, 0);
      LexesRender(t, 0, ps);
      LexesValid(t, 0, ps);
      ScanLexed(t, 0, ps, m);
      ExpandOk(ps, m, 0);
      assert t[0..] == t;
    } else {
      NoPiecesFails(t, 0, m);
    }
    if exists ps :: ValidPieces(ps) && Render(ps) == t && PieceIds(ps) <= m.Keys {
      var ps :| ValidPieces(ps) && Render(ps) == t && PieceIds(ps) <= m.Keys;
      SubstituteRender(ps, m);
      ExpandOk(ps, m, 0);
    }
  }

  /** ValueError is raised exactly for templates that cannot be written as pieces: a
      template that can be never raises it, whatever the mapping. */
  lemma InvalidMeansNoPieces(t: string, m: map<string, string>)
    requires Substitute(t, m).Err? && Substitute(t, m).error.Invalid?
    ensures !exists ps :: ValidPieces(ps) && Render(ps) == t
  {
    if exists ps :: ValidPieces(ps) && Render(ps) == t {
      var ps :| ValidPieces(ps) && Render(ps) == t;
      SubstituteRender(ps, m);
    }
  }

  // ---------------------------------------------------------------------------
  // Escaping: `$$` is the only way to write a literal `$`.

  /** Doubles every `$`, so that substitution gives back the text unchanged. */
  function Escape(s: string): (r: string)
  {
    if s == [] then []
    else (if s[0] == '$' then "$$" else [s[0]]) + Escape(s[1..])
  }

  function EscapePieces(s: string): (ps: seq<Piece>)
    ensures ValidPieces(ps)
    ensures Render(ps) == Escape(s)
    ensures forall m, at :: Expand(ps, m, at) == Ok(s)
  {
    if s == [] then []
    else
      var ps := [if s[0] == '$' then Dollar else Text(s[0])] + EscapePieces(s[1..]);
      assert ps[1..] == EscapePieces(s[1..]);
      assert s == [s[0]] + s[1..];
      ps
  }

  lemma EscapeRoundTrip(s: string, m: map<string, string>)
    ensures Substitute(Escape(s), m) == Ok(s)
  {
    SubstituteRender(EscapePieces(s), m);
  }

  /** Text without `$` is a template that stands for itself. */
  lemma {:induction false} EscapeNoDollar(s: string)
    requires '$' !in s
    ensures Escape(s) == s
  {
    if s != [] {
      assert s[0] != '$';
      assert '$' !in s[1..];
      EscapeNoDollar(s[1..]);
      assert s == [s[0]] + s[1..];
    }
  }

  /** `${id}` followed by text without `$` is the variable's value followed by the text,
      or a KeyError for `id` raised at the name. */
  lemma BracedThenText(id: string, s: string, m: map<string, string>)
    requires IsIdent(id) && '$' !in s
    ensures Substitute("${" + id + "}" + s, m)
      == if id in m then Ok(m[id] + s) else Err(Missing(id, 2))
  {
    var tail := EscapePieces(s);
    EscapeNoDollar(s);
    var ps := [Braced(id)] + tail;
    assert ps[1..] == tail;
    assert Render(ps) == "${" + id + "}" + s;
    SubstituteRender(ps, m);
  }

  // ---------------------------------------------------------------------------
  // Optional templates replace every missing variable by ''.

  /** Expansion in which a variable missing from `m` expands to ''. */
  function ExpandBlank(ps: seq<Piece>, m: map<string, string>): string
  {
    if ps == [] then ""
    else
      var head := match ps[0]
        case Text(c) => [c]
        case Dollar => "$"
        case Named(id) => if id in m then m[id] else ""
        case Braced(id) => if id in m then m[id] else "";
      head + ExpandBlank(ps[1..], m)
  }

  lemma IdentsOfSuffix(u: string, v: string)
    ensures Idents(v) <= Idents(u + v)
    ensures Idents(u) <= Idents(u + v)
  {
    forall x | x in Idents(v) ensures x in Idents(u + v) {
      var a, b :| 0 <= a <= b <= |v| && IsIdent(v[a..b]) && x == v[a..b];
      assert (u + v)[|u| + a..|u| + b] == v[a..b];
    }
    forall x | x in Idents(u) ensures x in Idents(u + v) {
      var a, b :| 0 <= a <= b <= |u| && IsIdent(u[a..b]) && x == u[a..b];
      assert (u + v)[a..b] == u[a..b];
    }
  }

  lemma {:induction false} PieceIdsInIdents(ps: seq<Piece>)
    requires ValidPieces(ps)
    ensures PieceIds(ps) <= Idents(Render(ps))
  {
    if ps != [] {
      var rest := ps[1..];
      PieceIdsInIdents(rest);
      var u := RenderPiece(ps[0]);
      assert Render(ps) == u + Render(rest);
      IdentsOfSuffix(u, Render(rest));
      if ps[0].Named? || ps[0].Braced? {
        var a := if ps[0].Named? then 1 else 2;
        assert u[a..a + |ps[0].id|] == ps[0].id;
        IdentIn(u, a, a + |ps[0].id|);
      }
    }
  }

  lemma IdentIn(s: string, a: nat, b: nat)
    requires a <= b <= |s| && IsIdent(s[a..b])
    ensures s[a..b] in Idents(s)
  {
  }

  lemma {:induction false} ExpandWithBlanks(ps: seq<Piece>, m: map<string, string>, full: map<string, string>, at: nat)
    requires Extends(full, m)
    requires forall x :: x in PieceIds(ps) && x !in m ==> x in full && full[x] == ""
    ensures Expand(ps, full, at) == Ok(ExpandBlank(ps, m))
  {
    if ps != [] {
      ExpandWithBlanks(ps[1..], m, full, at + |RenderPiece(ps[0])|);
    }
  }

  /** An optional template written as pieces expands every variable the caller's
      mapping lacks to the empty string, and never fails. */
  lemma OptionalFillsBlanks(ps: seq<Piece>, m: map<string, string>)
    requires ValidPieces(ps)
    ensures Substitute(Render(ps), WithBlanks(Render(ps), m)) == Ok(ExpandBlank(ps, m))
  {
    var full := WithBlanks(Render(ps), m);
    PieceIdsInIdents(ps);
    ExpandWithBlanks(ps, m, full, 0);
    SubstituteRender(ps, full);
  }
}
