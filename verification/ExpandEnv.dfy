/**
 Placeholder expansion in configuration text (config/config.go:117-161). A
 character stands for one byte; all characters that steer the scanner are ASCII.
 */
module EnvExpansion {

  type Env = map<string, string>

  /** An unset variable reads as the empty string. */
  function Getenv(env: Env, name: string): string {
    if name in env then env[name] else ""
  }

  // The scanner for one placeholder; its text starts with the opening brace.

  predicate Breaks(c: char) {
    c == ' ' || c == '\n' || c == '"'
  }

  /** The closing brace of a name scanned from `i` on, or the end of the text when there is none. */
  function CloseAt(s: string, i: nat): (e: nat)
    requires i <= |s|
    ensures i <= e <= |s|
    decreases |s| - i
  {
    if i == |s| || Breaks(s[i]) then |s| else if s[i] == '}' then i else CloseAt(s, i + 1)
  }

  /**
   The scan ends on the first closing brace, with nothing that breaks a name before
   it; it finds none only when every closing brace comes after a breaking character.
   */
  lemma {:induction false} CloseAtSpan(s: string, i: nat)
    requires i <= |s|
    ensures var e := CloseAt(s, i);
            && (forall k :: i <= k < e && e < |s| ==> !Breaks(s[k]) && s[k] != '}')
            && (e < |s| ==> s[e] == '}')
            && (e == |s| ==> forall k :: i <= k < |s| && s[k] == '}' ==> exists b :: i <= b < k && Breaks(s[b]))
    decreases |s| - i
  {
    if i == |s| || Breaks(s[i]) || s[i] == '}' {
    } else {
      CloseAtSpan(s, i + 1);
    }
  }

  /** Name and width found in a text that starts with the opening brace; width zero means no match. */
  function ShellName(s: string): (r: (string, nat))
    requires |s| >= 2
  {
    var e := CloseAt(s, 1);
    if e == |s| then ("", 0) else (s[1..e], e + 1)
  }

  /** A nonzero width ends exactly on the closing brace, and the name is what is between. */
  lemma ShellNameSpan(s: string)
    requires |s| >= 2
    ensures var (name, w) := ShellName(s);
            if w > 0 then
              && 2 <= w <= |s| && s[w - 1] == '}' && name == s[1..w - 1]
              && (forall k :: 1 <= k < w - 1 ==> s[k] != ' ' && s[k] != '\n' && s[k] != '"' && s[k] != '}')
            else
              && name == ""
              && (forall k :: 1 <= k < |s| && s[k] == '}' ==> exists b :: 1 <= b < k && (s[b] == ' ' || s[b] == '\n' || s[b] == '"'))
  {
    CloseAtSpan(s, 1);
  }

  method GetShellName(s: string) returns (name: string, w: nat)
    requires |s| >= 2 && s[0] == '{'
    ensures (name, w) == ShellName(s)
  {
    for i := 1 to |s|
      invariant CloseAt(s, 1) == CloseAt(s, i)
    {
      if s[i] == ' ' || s[i] == '\n' || s[i] == '"' {
        return "", 0;
      }
      if s[i] == '}' {
        if i == 1 {
          assert s[1..1] == "";
          return "", 2;
        }
        return s[1..i], i + 1;
      }
    }
    return "", 0;
  }

  // The substitution.

  predicate StartsPlaceholder(s: string, j: nat) {
    j + 2 < |s| && s[j] == '$' && s[j + 1] == '{'
  }

  datatype Piece = Plain(c: char) | Empty | Named(name: string)

  /** The piece of text at `j` and its length; it does not depend on the environment. */
  function PieceAt(s: string, j: nat): (r: (Piece, nat))
    requires j < |s|
    ensures 1 <= r.1 <= |s| - j
  {
    if !StartsPlaceholder(s, j) then (Plain(s[j]), 1)
    else
      var e := CloseAt(s, j + 2);
      if e == |s| then (Plain('$'), 1)
      else if e == j + 2 then (Empty, 3)
      else (Named(s[j + 2..e]), e + 1 - j)
  }

  /** Scanning the rest of a text finds the same brace. */
  lemma {:induction false} CloseAtShift(a: string, s: string, i: nat)
    requires i <= |s|
    ensures CloseAt(a + s, |a| + i) == |a| + CloseAt(s, i)
    decreases |s| - i
  {
    if i < |s| {
      assert (a + s)[|a| + i] == s[i];
      CloseAtShift(a, s, i + 1);
    }
  }

  function RenderPiece(p: Piece, env: Env): string {
    match p
    case Plain(c) => [c]
    case Empty => ""
    case Named(name) => Getenv(env, name)
  }

  /** From `j` on, left to right, one pass: what has been substituted is not looked at again. */
  function Expand(s: string, j: nat, env: Env): string
    decreases |s| - j
  {
    if j >= |s| then ""
    else
      var (p, n) := PieceAt(s, j);
      RenderPiece(p, env) + Expand(s, j + n, env)
  }

  lemma Assoc(a: string, b: string, c: string)
    ensures (a + b) + c == a + (b + c)
  {
  }

  lemma SplitAt(s: string, j: nat)
    requires j <= |s|
    ensures s[..j] + s[j..] == s
  {
  }

  lemma SplitFrom(s: string, j: nat, k: nat)
    requires j <= k <= |s|
    ensures s[j..k] + s[k..] == s[j..]
  {
  }

  lemma FirstOf(s: string, j: nat, k: nat)
    requires j < k <= |s|
    ensures s[j..k] == [s[j]] + s[j + 1..k]
  {
  }

  lemma LastOf(s: string, i: nat, j: nat)
    requires i <= j < |s|
    ensures s[i..j + 1] == s[i..j] + [s[j]]
  {
  }

  lemma SliceOfDrop(s: string, i: nat, j: nat, k: nat)
    requires i + j <= i + k <= |s|
    ensures s[i..][j..k] == s[i + j..i + k]
  {
  }

  /** The piece at a placeholder is what the name scanner finds after the dollar sign. */
  lemma PieceFromName(s: string, j: nat)
    requires StartsPlaceholder(s, j)
    ensures var (name, w) := ShellName(s[j + 1..]);
            PieceAt(s, j) == if name != "" then (Named(name), 1 + w)
                             else if w > 0 then (Empty, 1 + w)
                             else (Plain('$'), 1)
  {
    SplitAt(s, j + 1);
    CloseAtShift(s[..j + 1], s[j + 1..], 1);
    var e := CloseAt(s[j + 1..], 1);
    SliceOfDrop(s, j + 1, 1, e);
  }

  /** Every suffix's expansion, as a list: what the scanner still owes at each position. */
  ghost predicate Owes(s: string, env: Env, tails: seq<string>) {
    && |tails| == |s| + 1 && tails[|s|] == ""
    && forall j :: 0 <= j < |s| ==> OwesAt(s, env, tails, j)
  }

  ghost predicate OwesAt(s: string, env: Env, tails: seq<string>, j: nat)
    requires j < |s| && |tails| == |s| + 1
  {
    var (p, n) := PieceAt(s, j);
    tails[j] == RenderPiece(p, env) + tails[j + n]
  }

  lemma ExpandTails(s: string, env: Env) returns (tails: seq<string>)
    ensures Owes(s, env, tails) && tails[0] == Expand(s, 0, env)
  {
    tails := seq(|s| + 1, k requires 0 <= k <= |s| => Expand(s, k, env));
  }

  lemma OwesNothing(s: string, env: Env, tails: seq<string>)
    requires Owes(s, env, tails)
    ensures |tails| == |s| + 1 && tails[|s|] == ""
  {
  }

  /** Where no placeholder starts, the scanner owes the character. */
  lemma OwesPlain(s: string, env: Env, tails: seq<string>, j: nat)
    requires Owes(s, env, tails) && j < |s| && !StartsPlaceholder(s, j)
    ensures tails[j] == [s[j]] + tails[j + 1]
  {
    assert OwesAt(s, env, tails, j);
  }

  /** What the scanner writes for a placeholder with this name and width. */
  function Substituted(name: string, w: nat, env: Env): string {
    if name == "" && w > 0 then "" else if name == "" then "$" else Getenv(env, name)
  }

  lemma OwesPlaceholder(s: string, env: Env, tails: seq<string>, j: nat)
    requires Owes(s, env, tails) && StartsPlaceholder(s, j)
    ensures var (name, w) := ShellName(s[j + 1..]);
            j + 1 + w <= |s| && tails[j] == Substituted(name, w, env) + tails[j + 1 + w]
  {
    assert OwesAt(s, env, tails, j);
    PieceFromName(s, j);
    hide PieceAt, ShellName;
  }

  /** Moving a part from what is owed to what is done. */
  lemma Settle(total: string, done: string, text: string, rest: string)
    requires total == done + (text + rest)
    ensures total == (done + text) + rest
  {
  }

  /** The scanner's output so far: the buffer, and the text from `i` on that is not copied yet. */
  function Done(buf: string, s: string, i: nat, j: nat): string
    requires i <= j <= |s|
  {
    buf + s[i..j]
  }

  lemma DoneCopied(buf: string, s: string, i: nat)
    requires i <= |s|
    ensures Done(buf, s, i, i) == buf && buf + "" == buf
  {
  }

  lemma DoneIs(buf: string, s: string, i: nat, j: nat)
    requires i <= j <= |s|
    ensures Done(buf, s, i, j) == buf + s[i..j]
  {
  }

  lemma DoneNext(buf: string, s: string, i: nat, j: nat)
    requires i <= j < |s|
    ensures Done(buf, s, i, j + 1) == Done(buf, s, i, j) + [s[j]]
  {
    LastOf(s, i, j);
  }

  lemma DoneAll(buf: string, s: string, i: nat)
    requires i <= |s|
    ensures Done(buf, s, i, |s|) == buf + s[i..] && buf + s[i..] + "" == buf + s[i..]
    ensures "" + s[0..] == s
  {
    assert s[i..|s|] == s[i..];
  }

  /** One round of the scanner over a plain character. */
  lemma PlainRound(s: string, env: Env, tails: seq<string>, buf: string, i: nat, j: nat)
    requires Owes(s, env, tails) && i <= j < |s| && !StartsPlaceholder(s, j)
    requires tails[0] == Done(buf, s, i, j) + tails[j]
    ensures tails[0] == Done(buf, s, i, j + 1) + tails[j + 1]
  {
    OwesPlain(s, env, tails, j);
    Settle(tails[0], Done(buf, s, i, j), [s[j]], tails[j + 1]);
    DoneNext(buf, s, i, j);
    hide *;
  }

  /** One round of the scanner over the start of a placeholder. */
  lemma PlaceholderRound(s: string, env: Env, tails: seq<string>, buf: string, i: nat, j: nat)
    requires Owes(s, env, tails) && i <= j && StartsPlaceholder(s, j)
    requires tails[0] == Done(buf, s, i, j) + tails[j]
    ensures var (name, w) := ShellName(s[j + 1..]);
            var next := j + w + 1;
            next <= |s| && tails[0] == Done(buf + s[i..j] + Substituted(name, w, env), s, next, next) + tails[next]
  {
    var (name, w) := ShellName(s[j + 1..]);
    var next := j + w + 1;
    OwesPlaceholder(s, env, tails, j);
    Settle(tails[0], Done(buf, s, i, j), Substituted(name, w, env), tails[next]);
    DoneIs(buf, s, i, j);
    DoneCopied(buf + s[i..j] + Substituted(name, w, env), s, next);
    hide *;
  }

  /** Copies the text before the placeholder at `j` and writes what stands for it; `w` is its width. */
  method WritePlaceholder(s: string, env: Env, buf: string, i: nat, j: nat) returns (buf': string, w: nat)
    requires i <= j && StartsPlaceholder(s, j)
    ensures w == ShellName(s[j + 1..]).1
    ensures buf' == buf + s[i..j] + Substituted(ShellName(s[j + 1..]).0, w, env)
  {
    buf' := buf + s[i..j];
    var name;
    name, w := GetShellName(s[j + 1..]);
    if name == "" && w > 0 {
      assert buf' + "" == buf';
    } else if name == "" {
      buf' := buf' + [s[j]];
    } else {
      buf' := buf' + Getenv(env, name);
    }
  }

  /**
   The scanner: `i` is the start of the text not copied yet, `j` the position
   looked at; the buffer exists once a placeholder has been met.
   */
  method ExpandEnv(s: string, env: Env) returns (r: string)
    ensures r == Expand(s, 0, env)
  {
    var buf: string := "";
    var buffered := false;
    var i, j := 0, 0;
    ghost var tails := ExpandTails(s, env);
    DoneCopied(buf, s, 0);
    assert tails[0] == Done(buf, s, 0, 0) + tails[0];
    hide Expand, Owes, ShellName, Done, Substituted;
    while j < |s|
      invariant 0 <= i <= j <= |s|
      invariant !buffered ==> i == 0 && buf == ""
      invariant tails[0] == Done(buf, s, i, j) + tails[j]
      decreases |s| - j
    {
      if s[j] == '$' && j + 2 < |s| && s[j + 1] == '{' {
        PlaceholderRound(s, env, tails, buf, i, j);
        if !buffered {
          buffered := true;
        }
        var w;
        buf, w := WritePlaceholder(s, env, buf, i, j);
        j := j + w;
        i := j + 1;
      } else {
        PlainRound(s, env, tails, buf, i, j);
      }
      j := j + 1;
    }
    OwesNothing(s, env, tails);
    DoneAll(buf, s, i);
    if !buffered {
      return s;
    }
    r := buf + s[i..];
  }

  lemma {:induction false} ExpandPlain(s: string, j: nat, k: nat, env: Env)
    requires j <= k <= |s| && forall l :: j <= l < k ==> !StartsPlaceholder(s, l)
    ensures Expand(s, j, env) == s[j..k] + Expand(s, k, env)
    decreases k - j
  {
    if j < k {
      ExpandPlain(s, j + 1, k, env);
      FirstOf(s, j, k);
      Assoc([s[j]], s[j + 1..k], Expand(s, k, env));
      assert Expand(s, j, env) == [s[j]] + Expand(s, j + 1, env);
      hide Expand, PieceAt;
    }
  }

  /** Without any placeholder the text stays as it is. */
  lemma ExpandUnchanged(s: string, env: Env)
    requires forall l :: 0 <= l < |s| ==> !StartsPlaceholder(s, l)
    ensures Expand(s, 0, env) == s
  {
    ExpandPlain(s, 0, |s|, env);
  }

  // Every text is read as one list of pieces.

  function PrintPiece(p: Piece): string {
    match p
    case Plain(c) => [c]
    case Empty => "${}"
    case Named(name) => "${" + name + "}"
  }

  datatype Pieces = End | More(first: Piece, rest: Pieces)

  function PrintPieces(ps: Pieces): string {
    match ps
    case End => ""
    case More(p, rest) => PrintPiece(p) + PrintPieces(rest)
  }

  function RenderPieces(ps: Pieces, env: Env): string {
    match ps
    case End => ""
    case More(p, rest) =>
      (match p
       case Plain(c) => [c]
       case Empty => ""
       case Named(name) => if name in env then env[name] else "")
      + RenderPieces(rest, env)
  }

  predicate ProperPieces(ps: Pieces) {
    match ps
    case End => true
    case More(p, rest) => (p.Named? ==> ProperName(p.name)) && ProperPieces(rest)
  }

  function PiecesFrom(s: string, j: nat): Pieces
    decreases |s| - j
  {
    if j >= |s| then End else More(PieceAt(s, j).0, PiecesFrom(s, j + PieceAt(s, j).1))
  }

  predicate ProperName(n: string) {
    n != "" && forall k :: 0 <= k < |n| ==> n[k] != ' ' && n[k] != '\n' && n[k] != '"' && n[k] != '}'
  }

  lemma PieceAtOutcome(s: string, j: nat)
    requires j < |s|
    ensures var (p, n) := PieceAt(s, j);
            PrintPiece(p) == s[j..j + n] && (p.Named? ==> ProperName(p.name))
  {
    var (p, n) := PieceAt(s, j);
    if StartsPlaceholder(s, j) && n > 1 {
      CloseAtSpan(s, j + 2);
      var name := s[j + 2..j + n - 1];
      assert s[j..j + n] == "${" + name + "}";
    }
  }

  /** The pieces of a text print back to the text. */
  lemma {:induction false} PiecesPrintBack(s: string, j: nat)
    requires j <= |s|
    ensures PrintPieces(PiecesFrom(s, j)) == s[j..]
    decreases |s| - j
  {
    hide PieceAt, PrintPiece;
    if j < |s| {
      var (p, n) := PieceAt(s, j);
      PieceAtOutcome(s, j);
      PiecesPrintBack(s, j + n);
      SplitFrom(s, j, j + n);
      assert PiecesFrom(s, j) == More(p, PiecesFrom(s, j + n));
    }
  }

  /** Every name read is non-empty and free of braces, blanks, newlines and quotes. */
  lemma {:induction false} PiecesProper(s: string, j: nat)
    ensures ProperPieces(PiecesFrom(s, j))
    decreases |s| - j
  {
    if j < |s| {
      PieceAtOutcome(s, j);
      PiecesProper(s, j + PieceAt(s, j).1);
    }
  }

  lemma ExpandNext(s: string, j: nat, env: Env)
    requires j < |s|
    ensures var (p, n) := PieceAt(s, j);
            && Expand(s, j, env) == RenderPiece(p, env) + Expand(s, j + n, env)
            && PiecesFrom(s, j) == More(p, PiecesFrom(s, j + n))
  {
  }

  /**
   Expansion is substitution in a text's own pieces: `${name}` becomes the value,
   `${}` disappears, and every other character stays.
   */
  lemma {:induction false} ExpandIsSubstitution(s: string, j: nat, env: Env)
    ensures Expand(s, j, env) == RenderPieces(PiecesFrom(s, j), env)
    decreases |s| - j
  {
    if j < |s| {
      hide PieceAt;
      ExpandNext(s, j, env);
      hide Expand, PiecesFrom;
      ExpandIsSubstitution(s, j + PieceAt(s, j).1, env);
    }
  }

  // That reading is the only one.

  lemma PieceAtShift(a: string, s: string, j: nat)
    requires j < |s|
    ensures PieceAt(a + s, |a| + j) == PieceAt(s, j)
  {
    if StartsPlaceholder(s, j) {
      CloseAtShift(a, s, j + 2);
      var e := CloseAt(s, j + 2);
      assert (a + s)[|a| + j + 2..|a| + e] == s[j + 2..e];
    }
  }

  lemma {:induction false} ScanName(s: string, i: nat, e: nat)
    requires i <= e < |s| && s[e] == '}' && forall k :: i <= k < e ==> !Breaks(s[k]) && s[k] != '}'
    ensures CloseAt(s, i) == e
    decreases e - i
  {
    if i < e {
      ScanName(s, i + 1, e);
    }
  }

  /** A placeholder opens the text: a brace closes it, and nothing before that breaks its name. */
  ghost predicate OpensPlaceholder(s: string) {
    exists e: nat :: ClosesAt(s, e)
  }

  ghost predicate ClosesAt(s: string, e: nat) {
    && 2 <= e < |s| && s[0] == '$' && s[1] == '{' && s[e] == '}'
    && forall k :: 2 <= k < e ==> s[k] != ' ' && s[k] != '\n' && s[k] != '"' && s[k] != '}'
  }

  /** A possible reading of a text: names are proper, and no character is read alone where a placeholder opens. */
  ghost predicate Reading(ps: Pieces) {
    match ps
    case End => true
    case More(p, rest) =>
      && (p.Named? ==> ProperName(p.name))
      && (p.Plain? ==> !OpensPlaceholder(PrintPieces(ps)))
      && Reading(rest)
  }

  lemma {:induction false} PiecesShift(a: string, s: string, j: nat)
    ensures PiecesFrom(a + s, |a| + j) == PiecesFrom(s, j)
    decreases |s| - j
  {
    if j < |s| {
      PieceAtShift(a, s, j);
      PiecesShift(a, s, j + PieceAt(s, j).1);
    }
  }

  lemma ClosedName(s: string, e: nat)
    requires ClosesAt(s, e)
    ensures PieceAt(s, 0) == (if e == 2 then Empty else Named(s[2..e]), e + 1)
  {
    ScanName(s, 2, e);
  }

  /** A single character is read exactly where no placeholder opens. */
  lemma PlainIffNotOpen(s: string)
    requires s != ""
    ensures PieceAt(s, 0).0.Plain? <==> !OpensPlaceholder(s)
    ensures PieceAt(s, 0).0.Plain? ==> PieceAt(s, 0) == (Plain(s[0]), 1)
  {
    if OpensPlaceholder(s) {
      var e :| ClosesAt(s, e);
      ClosedName(s, e);
    } else if StartsPlaceholder(s, 0) {
      CloseAtSpan(s, 2);
      assert !ClosesAt(s, CloseAt(s, 2));
    }
  }

  /** The first piece of a reading is the one that the scanner finds. */
  lemma FirstPiece(p: Piece, rest: string)
    requires p.Named? ==> ProperName(p.name)
    requires p.Plain? ==> !OpensPlaceholder(PrintPiece(p) + rest)
    ensures PieceAt(PrintPiece(p) + rest, 0) == (p, |PrintPiece(p)|)
  {
    var s := PrintPiece(p) + rest;
    match p
    case Plain(c) => PlainIffNotOpen(s);
    case Empty => ClosedName(s, 2);
    case Named(name) =>
      assert s == "${" + name + "}" + rest;
      assert forall k :: 0 <= k < |name| ==> s[k + 2] == name[k];
      ClosedName(s, |name| + 2);
      assert s[2..|name| + 2] == name;
  }

  /** Every reading of a text is the list of pieces that the scanner finds. */
  lemma {:induction false} ReadingUnique(ps: Pieces)
    requires Reading(ps)
    ensures ps == PiecesFrom(PrintPieces(ps), 0)
  {
    match ps
    case End =>
    case More(p, rest) =>
      FirstPiece(p, PrintPieces(rest));
      ReadingUnique(rest);
      PiecesShift(PrintPiece(p), PrintPieces(rest), 0);
  }

  lemma PlainNotOpen(s: string, j: nat)
    requires j < |s|
    ensures PieceAt(s, j).0.Plain? ==> !OpensPlaceholder(s[j..])
  {
    SplitAt(s, j);
    PieceAtShift(s[..j], s[j..], 0);
    PlainIffNotOpen(s[j..]);
    hide PieceAt, OpensPlaceholder;
  }

  lemma PiecesNext(s: string, j: nat)
    requires j < |s|
    ensures PiecesFrom(s, j) == More(PieceAt(s, j).0, PiecesFrom(s, j + PieceAt(s, j).1))
  {
    hide PieceAt;
  }

  /** What the scanner finds is a reading. */
  lemma {:induction false} ReadingExists(s: string, j: nat)
    requires j <= |s|
    ensures Reading(PiecesFrom(s, j))
    decreases |s| - j
  {
    if j < |s| {
      hide PieceAt, OpensPlaceholder, PrintPieces, PrintPiece, ProperName;
      PieceAtOutcome(s, j);
      PlainNotOpen(s, j);
      PiecesPrintBack(s, j);
      PiecesNext(s, j);
      hide PiecesFrom;
      ReadingExists(s, j + PieceAt(s, j).1);
    }
  }

  /**
   Every text has exactly one reading, and expanding the text is substitution in
   that reading: `${name}` becomes the value, `${}` disappears, the rest stays.
   */
  lemma ExpandSubstitutes(s: string, ps: Pieces, env: Env)
    ensures Reading(ps) && PrintPieces(ps) == s <==> ps == PiecesFrom(s, 0)
    ensures Reading(ps) && PrintPieces(ps) == s ==> Expand(s, 0, env) == RenderPieces(ps, env)
  {
    ReadingExists(s, 0);
    PiecesPrintBack(s, 0);
    assert s[0..] == s;
    if Reading(ps) && PrintPieces(ps) == s {
      ReadingUnique(ps);
    }
    ExpandIsSubstitution(s, 0, env);
  }

  // Templates.

  datatype Token = Text(text: string) | Var(name: string)

  /** A text without placeholder: a dollar sign may occur, but not last and not before a brace. */
  predicate PlainText(t: string) {
    forall k :: 0 <= k < |t| && t[k] == '$' ==> k + 1 < |t| && t[k + 1] != '{'
  }

  predicate Proper(t: Token) {
    match t
    case Text(text) => PlainText(text)
    case Var(name) => ProperName(name)
  }

  function PrintToken(t: Token): string {
    match t
    case Text(text) => text
    case Var(name) => "${" + name + "}"
  }

  function Print(ts: seq<Token>): string {
    if ts == [] then "" else PrintToken(ts[0]) + Print(ts[1..])
  }

  function Render(ts: seq<Token>, env: Env): string {
    if ts == [] then ""
    else (match ts[0] case Text(text) => text case Var(name) => if name in env then env[name] else "")
         + Render(ts[1..], env)
  }

  /** Expansion looks only at what lies ahead. */
  lemma {:induction false} ExpandSuffix(a: string, s: string, j: nat, env: Env)
    ensures Expand(a + s, |a| + j, env) == Expand(s, j, env)
    decreases |s| - j
  {
    if j < |s| {
      PieceAtShift(a, s, j);
      ExpandSuffix(a, s, j + PieceAt(s, j).1, env);
    }
  }

  lemma ExpandVar(name: string, rest: string, env: Env)
    requires ProperName(name)
    ensures Expand(PrintToken(Var(name)) + rest, 0, env) == Getenv(env, name) + Expand(rest, 0, env)
  {
    var a := PrintToken(Var(name));
    var s := a + rest;
    assert forall k :: 0 <= k < |name| ==> s[k + 2] == name[k];
    ScanName(s, 2, |name| + 2);
    assert s[2..|name| + 2] == name;
    ExpandSuffix(a, rest, 0, env);
  }

  lemma ExpandText(text: string, rest: string, env: Env)
    requires PlainText(text)
    ensures Expand(text + rest, 0, env) == text + Expand(rest, 0, env)
  {
    ExpandPlain(text + rest, 0, |text|, env);
    ExpandSuffix(text, rest, 0, env);
    assert (text + rest)[0..|text|] == text;
  }

  /**
   Printing a template and expanding it yields its literals and the values of its
   variables, each value verbatim: values are never scanned again.
   */
  lemma {:induction false} ExpandTemplate(ts: seq<Token>, env: Env)
    requires forall t :: t in ts ==> Proper(t)
    ensures Expand(Print(ts), 0, env) == Render(ts, env)
  {
    if ts != [] {
      ExpandTemplate(ts[1..], env);
      assert Proper(ts[0]);
      match ts[0]
      case Text(text) => ExpandText(text, Print(ts[1..]), env);
      case Var(name) => ExpandVar(name, Print(ts[1..]), env);
    }
  }
}
