/** The text of a filled timetable cell. The generator writes it with the
    template of src/components/TimetableDisplay.tsx:75, and the service reads
    subject and faculty id back with the regular expression
    `^(.+?)<br\/><span[^>]*>\([^)]+\)<br\/>(.+?)<\/span>$`
    (src/services/timetableService.ts:85 and :160). MatchCell is a matcher
    for that one expression, with JavaScript's semantics: `.` matches
    anything but a line terminator, group 1 is the shortest prefix for which
    the rest matches, and the end anchor fixes group 2. */
module CellCodec {
  import opened Wrappers
  import opened Text

  const SPAN_OPEN: string := "<br/><span"
  const CELL_ATTRS: string := " class=\"text-xs text-gray-600\""
  const SPAN_MID: string := ")<br/>"
  const SPAN_TAIL: string := "</span>"

  /** The cell text built from its parts, grouped to the right. */
  function Assemble(subject: string, attrs: string, faculty: string, facultyId: string): string {
    subject + (SPAN_OPEN + (attrs + (">" + ("(" + (faculty + (SPAN_MID + (facultyId + SPAN_TAIL)))))))
  }

  /** `${subject}<br/><span class="text-xs text-gray-600">(${faculty})<br/>${facultyId}</span>` */
  function EncodeCell(subject: string, faculty: string, facultyId: string): string {
    Assemble(subject, CELL_ATTRS, faculty, facultyId)
  }

  /** Groups 1 and 2 of a successful match. */
  datatype CellMatch = CellMatch(subject: string, facultyId: string)

  predicate StartsWith(u: string, lit: string) {
    |lit| <= |u| && u[..|lit|] == lit
  }

  predicate NoChar(u: string, c: char) {
    forall k :: 0 <= k < |u| ==> u[k] != c
  }

  /** The first index of `c` in `u`. */
  function IndexOf(u: string, c: char): (r: Option<nat>)
    ensures r.Some? ==> r.value < |u| && u[r.value] == c && NoChar(u[..r.value], c)
    ensures r.None? ==> NoChar(u, c)
    decreases |u|
  {
    if u == [] then None
    else if u[0] == c then Some(0)
    else match IndexOf(u[1..], c)
      case None => None
      case Some(i) => Some(i + 1)
  }

  /** `(.+?)<\/span>$`: the end anchor makes group 2 all that precedes the
      final `</span>`. */
  function MatchGroup2(z: string): Option<string> {
    if |z| > |SPAN_TAIL| && z[|z| - |SPAN_TAIL|..] == SPAN_TAIL && NoLineTerminator(z[..|z| - |SPAN_TAIL|])
    then Some(z[..|z| - |SPAN_TAIL|])
    else None
  }

  /** One piece of the pattern between group 1 and group 2. */
  datatype Piece =
    | Lit(text: string)     // the text itself
    | SkipPast(stop: char)  // `[^c]*c`: `[^c]*` stops at the first `c`
    | RunBefore(stop: char) // `[^c]+` followed by `c`: a non-empty run up to the first `c`

  /** `<br\/><span`, `[^>]*>`, `\(`, `[^)]+`, `\)<br\/>`. */
  const TAIL_PIECES: seq<Piece> := [Lit(SPAN_OPEN), SkipPast('>'), Lit("("), RunBefore(')'), Lit(SPAN_MID)]

  /** Pieces `k` and on of `ps`, then group 2 and the end; gives group 2. */
  function MatchPieces(ps: seq<Piece>, k: nat, u: string): Option<string>
    requires k <= |ps|
    decreases |ps| - k
  {
    if k == |ps| then MatchGroup2(u)
    else match ps[k]
      case Lit(t) => if StartsWith(u, t) then MatchPieces(ps, k + 1, u[|t|..]) else None
      case SkipPast(c) =>
        (match IndexOf(u, c)
         case None => None
         case Some(q) => MatchPieces(ps, k + 1, u[q + 1..]))
      case RunBefore(c) =>
        (match IndexOf(u, c)
         case None => None
         case Some(r) => if r == 0 then None else MatchPieces(ps, k + 1, u[r..]))
  }

  /** `<br\/><span[^>]*>\([^)]+\)<br\/>(.+?)<\/span>$` at the start of `u`;
      gives group 2. */
  function MatchTail(u: string): Option<string> {
    MatchPieces(TAIL_PIECES, 0, u)
  }

  /** The whole pattern with group 1 taken to be `s[..n]`. */
  function MatchAfter(s: string, n: nat): Option<CellMatch>
    requires n <= |s|
  {
    match MatchTail(s[n..])
    case None => None
    case Some(id) => Some(CellMatch(s[..n], id))
  }

  /** Try group-1 lengths `n`, `n + 1`, ... in turn; `.+?` cannot grow past a
      line terminator. */
  function MatchFrom(s: string, n: nat): Option<CellMatch>
    requires 1 <= n
    decreases |s| - n
  {
    if n > |s| || IsLineTerminator(s[n - 1]) then None
    else match MatchAfter(s, n)
      case Some(m) => Some(m)
      case None => MatchFrom(s, n + 1)
  }

  /** `slotContent.match(...)`, reduced to its two groups. */
  function MatchCell(s: string): Option<CellMatch> {
    MatchFrom(s, 1)
  }

  /** The text after group 1 in a cell of the template's shape. */
  function TailText(attrs: string, faculty: string, facultyId: string): string {
    SPAN_OPEN + (attrs + (">" + ("(" + (faculty + (SPAN_MID + (facultyId + SPAN_TAIL))))))
  }

  /** What the part of the pattern after group 1 accepts. */
  ghost predicate TailShaped(u: string, id: string) {
    id != [] && NoLineTerminator(id) &&
    exists attrs: string, faculty: string ::
      NoChar(attrs, '>') && faculty != [] && NoChar(faculty, ')') && u == TailText(attrs, faculty, id)
  }

  /** What a successful match promises about the shape of the text. */
  ghost predicate Shaped(s: string, m: CellMatch) {
    m.subject != [] && NoLineTerminator(m.subject) && |m.subject| <= |s| && s[..|m.subject|] == m.subject
    && TailShaped(s[|m.subject|..], m.facultyId)
  }

  /** `u` cut at `k`. */
  lemma SplitAt(u: string, k: nat)
    requires k <= |u|
    ensures u == u[..k] + u[k..]
  {
  }

  /** `u` cut around the character at `k`. */
  lemma SplitAround(u: string, k: nat)
    requires k < |u|
    ensures u == u[..k] + ([u[k]] + u[k + 1..])
  {
  }

  // What each piece accepts: the text splits into the part that piece reads
  // and the rest, which the following pieces match.

  lemma Group2Sound(ps: seq<Piece>, z: string)
    requires MatchPieces(ps, |ps|, z).Some?
    ensures var id := MatchPieces(ps, |ps|, z).value;
      id != [] && NoLineTerminator(id) && z == id + SPAN_TAIL
  {
    SplitAt(z, |z| - |SPAN_TAIL|);
  }

  lemma LitSound(ps: seq<Piece>, k: nat, u: string)
    requires k < |ps| && ps[k].Lit? && MatchPieces(ps, k, u).Some?
    ensures var t := ps[k].text;
      u == t + u[|t|..] && MatchPieces(ps, k + 1, u[|t|..]) == MatchPieces(ps, k, u)
  {
    SplitAt(u, |ps[k].text|);
  }

  lemma SkipPastSound(ps: seq<Piece>, k: nat, u: string)
    requires k < |ps| && ps[k].SkipPast? && MatchPieces(ps, k, u).Some?
    ensures var c, q := ps[k].stop, IndexOf(u, ps[k].stop).value;
      && NoChar(u[..q], c) && u == u[..q] + ([c] + u[q + 1..])
      && MatchPieces(ps, k + 1, u[q + 1..]) == MatchPieces(ps, k, u)
  {
    SplitAround(u, IndexOf(u, ps[k].stop).value);
  }

  lemma RunBeforeSound(ps: seq<Piece>, k: nat, u: string)
    requires k < |ps| && ps[k].RunBefore? && MatchPieces(ps, k, u).Some?
    ensures var c, r := ps[k].stop, IndexOf(u, ps[k].stop).value;
      && r > 0 && NoChar(u[..r], c) && u == u[..r] + u[r..]
      && MatchPieces(ps, k + 1, u[r..]) == MatchPieces(ps, k, u)
  {
    SplitAt(u, IndexOf(u, ps[k].stop).value);
  }

  lemma MatchTailSound(u: string)
    requires MatchTail(u).Some?
    ensures TailShaped(u, MatchTail(u).value)
  {
    var ps := TAIL_PIECES;
    LitSound(ps, 0, u);
    var v := u[|SPAN_OPEN|..];
    SkipPastSound(ps, 1, v);
    var q := IndexOf(v, '>').value;
    var attrs, w := v[..q], v[q + 1..];
    LitSound(ps, 2, w);
    var x := w[1..];
    RunBeforeSound(ps, 3, x);
    var r := IndexOf(x, ')').value;
    var faculty, y := x[..r], x[r..];
    LitSound(ps, 4, y);
    var z := y[|SPAN_MID|..];
    Group2Sound(ps, z);
    var id := MatchPieces(ps, 5, z).value;
    TailTextOfParts(u, v, attrs, w, x, faculty, y, z, id);
    TailShapedOf(u, attrs, faculty, id);
  }

  lemma TailTextOfParts(u: string, v: string, attrs: string, w: string, x: string, faculty: string,
                        y: string, z: string, id: string)
    requires u == SPAN_OPEN + v && v == attrs + (">" + w) && w == "(" + x
    requires x == faculty + y && y == SPAN_MID + z && z == id + SPAN_TAIL
    ensures u == TailText(attrs, faculty, id)
  {
  }

  lemma TailShapedOf(u: string, attrs: string, faculty: string, id: string)
    requires NoChar(attrs, '>') && faculty != [] && NoChar(faculty, ')')
    requires id != [] && NoLineTerminator(id)
    requires u == TailText(attrs, faculty, id)
    ensures TailShaped(u, id)
  {
  }

  lemma {:induction false} MatchFromSound(s: string, n: nat)
    requires 1 <= n && n <= |s| + 1 && NoLineTerminator(s[..n - 1])
    requires MatchFrom(s, n).Some?
    ensures Shaped(s, MatchFrom(s, n).value)
    decreases |s| - n
  {
    assert NoLineTerminator(s[..n]) by {
      assert forall k :: 0 <= k < n - 1 ==> s[..n][k] == s[..n - 1][k];
    }
    match MatchAfter(s, n)
    case Some(m) =>
      MatchTailSound(s[n..]);
    case None =>
      MatchFromSound(s, n + 1);
  }

  /** Every match comes from text of the template's shape, with a non-empty
      subject and faculty id on one line each. */
  lemma MatchCellSound(s: string)
    requires MatchCell(s).Some?
    ensures Shaped(s, MatchCell(s).value)
  {
    MatchFromSound(s, 1);
  }

  /** A match needs a `<`, so matched text is never blank. */
  lemma MatchedIsNotBlank(s: string)
    requires MatchCell(s).Some?
    ensures !IsBlank(s)
  {
    MatchCellSound(s);
    var m := MatchCell(s).value;
    var u := s[|m.subject|..];
    assert u[0] == '<';
    assert s[|m.subject|] == u[0];
  }

  /** Empty and whitespace-only text, whatever an empty cell holds, never matches. */
  lemma BlankNeverMatches(s: string)
    requires IsBlank(s)
    ensures MatchCell(s).None?
  {
    if MatchCell(s).Some? {
      MatchedIsNotBlank(s);
    }
  }

  /** The text a subject may hold for the round trip: no `<br/>` (it would end
      group 1 early) and no line terminator (`.` cannot cross it). */
  predicate EncodableSubject(subject: string) {
    subject != [] && NoLineTerminator(subject) && !Contains(subject, "<br/>")
  }

  /** The faculty name may not be empty or hold `)`, which ends `[^)]+`. */
  predicate EncodableFaculty(faculty: string) {
    faculty != [] && NoChar(faculty, ')')
  }

  predicate EncodableFacultyId(facultyId: string) {
    facultyId != [] && NoLineTerminator(facultyId)
  }

  /** The first `c` of `a + b` is the first of `b` when `a` holds none. */
  lemma {:induction false} IndexOfAfter(a: string, b: string, c: char)
    requires NoChar(a, c) && b != [] && b[0] == c
    ensures IndexOf(a + b, c) == Some(|a|)
    decreases |a|
  {
    if a != [] {
      assert (a + b)[1..] == a[1..] + b;
      IndexOfAfter(a[1..], b, c);
    }
  }

  /** `a + b` cut at `|a|`. */
  lemma PartsOfConcat(a: string, b: string)
    ensures (a + b)[..|a|] == a && (a + b)[|a|..] == b
  {
  }

  lemma Group2Of(ps: seq<Piece>, facultyId: string)
    requires EncodableFacultyId(facultyId)
    ensures MatchPieces(ps, |ps|, facultyId + SPAN_TAIL) == Some(facultyId)
  {
    PartsOfConcat(facultyId, SPAN_TAIL);
  }

  lemma LitOf(ps: seq<Piece>, k: nat, v: string)
    requires k < |ps| && ps[k].Lit?
    ensures MatchPieces(ps, k, ps[k].text + v) == MatchPieces(ps, k + 1, v)
  {
    PartsOfConcat(ps[k].text, v);
  }

  lemma SkipPastOf(ps: seq<Piece>, k: nat, a: string, w: string)
    requires k < |ps| && ps[k].SkipPast? && NoChar(a, ps[k].stop)
    ensures MatchPieces(ps, k, a + ([ps[k].stop] + w)) == MatchPieces(ps, k + 1, w)
  {
    var c := ps[k].stop;
    IndexOfAfter(a, [c] + w, c);
    assert (a + ([c] + w))[|a| + 1..] == w;
  }

  lemma RunBeforeOf(ps: seq<Piece>, k: nat, a: string, y: string)
    requires k < |ps| && ps[k].RunBefore? && a != [] && NoChar(a, ps[k].stop)
    requires y != [] && y[0] == ps[k].stop
    ensures MatchPieces(ps, k, a + y) == MatchPieces(ps, k + 1, y)
  {
    IndexOfAfter(a, y, ps[k].stop);
    PartsOfConcat(a, y);
  }

  /** The pattern matches text of the template's shape at the end of the subject. */
  lemma MatchTailAssembled(attrs: string, faculty: string, facultyId: string)
    requires NoChar(attrs, '>') && EncodableFaculty(faculty) && EncodableFacultyId(facultyId)
    ensures MatchTail(TailText(attrs, faculty, facultyId)) == Some(facultyId)
  {
    var ps := TAIL_PIECES;
    var z := facultyId + SPAN_TAIL;
    var y := SPAN_MID + z;
    var x := faculty + y;
    var w := "(" + x;
    var v := attrs + (">" + w);
    Group2Of(ps, facultyId);
    LitOf(ps, 4, z);
    RunBeforeOf(ps, 3, faculty, y);
    LitOf(ps, 2, x);
    SkipPastOf(ps, 1, attrs, w);
    LitOf(ps, 0, v);
  }

  /** Before the end of the subject, the literal `<br/><span` cannot start. */
  lemma NoEarlySpan(subject: string, rest: string, n: nat)
    requires 1 <= n < |subject| && !Contains(subject, "<br/>")
    requires StartsWith(rest, SPAN_OPEN)
    ensures MatchAfter(subject + rest, n).None?
  {
    var s := subject + rest;
    var t := s[n..];
    var k := |subject| - n;
    if k >= 5 {
      assert !HasAt(subject, n, "<br/>");
      assert t[..5] == subject[n..n + 5];
      assert SPAN_OPEN[..5] == "<br/>";
      DiffersInPrefix(t, SPAN_OPEN, 5);
    } else {
      assert t[k] == rest[0] == '<';
      assert SPAN_OPEN[k] != '<';
      DiffersAt(t, SPAN_OPEN, k);
    }
  }

  lemma DiffersInPrefix(t: string, lit: string, j: nat)
    requires j <= |lit| && j <= |t| && t[..j] != lit[..j]
    ensures !StartsWith(t, lit)
  {
  }

  lemma DiffersAt(t: string, lit: string, j: nat)
    requires j < |lit| && j < |t| && t[j] != lit[j]
    ensures !StartsWith(t, lit)
  {
  }

  /** A group-1 length that fails moves the search to the next one. */
  lemma MatchFromMisses(s: string, n: nat)
    requires 1 <= n <= |s| && !IsLineTerminator(s[n - 1]) && MatchAfter(s, n).None?
    ensures MatchFrom(s, n) == MatchFrom(s, n + 1)
  {
  }

  /** A group-1 length that succeeds ends the search. */
  lemma MatchFromHits(s: string, n: nat)
    requires 1 <= n <= |s| && !IsLineTerminator(s[n - 1]) && MatchAfter(s, n).Some?
    ensures MatchFrom(s, n) == MatchAfter(s, n)
  {
  }

  /** On an encoded cell the search runs to the end of the subject. */
  lemma {:induction false} MatchFromSkipsSubject(subject: string, rest: string, n: nat)
    requires EncodableSubject(subject) && MatchTail(rest).Some?
    requires 1 <= n <= |subject|
    ensures MatchFrom(subject + rest, n) == Some(CellMatch(subject, MatchTail(rest).value))
    decreases |subject| - n
  {
    if n < |subject| {
      SubjectPrefixMisses(subject, rest, n);
      MatchFromSkipsSubject(subject, rest, n + 1);
    } else {
      SubjectHits(subject, rest);
    }
  }

  lemma SubjectPrefixMisses(subject: string, rest: string, n: nat)
    requires EncodableSubject(subject) && StartsWith(rest, SPAN_OPEN)
    requires 1 <= n < |subject|
    ensures MatchFrom(subject + rest, n) == MatchFrom(subject + rest, n + 1)
  {
    var s := subject + rest;
    assert s[n - 1] == subject[n - 1];
    NoEarlySpan(subject, rest, n);
    MatchFromMisses(s, n);
  }

  lemma SubjectHits(subject: string, rest: string)
    requires EncodableSubject(subject) && MatchTail(rest).Some?
    ensures MatchFrom(subject + rest, |subject|) == Some(CellMatch(subject, MatchTail(rest).value))
  {
    var s := subject + rest;
    assert s[|subject| - 1] == subject[|subject| - 1];
    PartsOfConcat(subject, rest);
    MatchFromHits(s, |subject|);
  }

  /** Decoding an encoded cell gives back the subject and the faculty id,
      e.g. ("Data Structures", "Dr. Smith", "F001") gives
      ("Data Structures", "F001"). */
  lemma RoundTrip(subject: string, faculty: string, facultyId: string)
    requires EncodableSubject(subject) && EncodableFaculty(faculty) && EncodableFacultyId(facultyId)
    ensures MatchCell(EncodeCell(subject, faculty, facultyId)) == Some(CellMatch(subject, facultyId))
  {
    var rest := TailText(CELL_ATTRS, faculty, facultyId);
    var s := subject + rest;
    assert s == EncodeCell(subject, faculty, facultyId);
    assert NoChar(CELL_ATTRS, '>');
    MatchTailAssembled(CELL_ATTRS, faculty, facultyId);
    MatchFromSkipsSubject(subject, rest, 1);
  }

  /** An encoded cell is never blank, so the generator never writes `""`. */
  lemma EncodedCellIsNotBlank(subject: string, faculty: string, facultyId: string)
    ensures !IsBlank(EncodeCell(subject, faculty, facultyId))
  {
    var s := EncodeCell(subject, faculty, facultyId);
    assert s[|subject|] == '<';
  }
}
