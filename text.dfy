/**
 * The string helpers of include/littlesmith/text/String.h: splitting on one
 * delimiter or on the earliest of several, joining, ASCII case mapping,
 * alignment of a line and the greedy word wrapper `to_block`.
 *
 * The loops of the source (`split`, `findFirstOf`, `join`, `to_block`) are
 * methods proved against specification functions; the expression-level
 * helpers are functions.
 */
module Text {
  import opened Outcomes

  /** The line separator of the POSIX build. */
  const LINEFEED: string := "\n"

  /** The delimiters `to_block` splits on, in the order it tries them. */
  const BlockDelimiters: seq<string> := [" ", LINEFEED, "\t"]

  // ---------------------------------------------------------------------
  // Searching (std::string::find)
  // ---------------------------------------------------------------------

  /** `needle` occurs in `s` starting at position `p`. */
  predicate OccursAt(s: string, needle: string, p: nat) {
    p + |needle| <= |s| && s[p..p + |needle|] == needle
  }

  predicate Contains(s: string, needle: string) {
    exists p: nat | p <= |s| :: OccursAt(s, needle, p)
  }

  predicate EndsWith(s: string, suffix: string) {
    |suffix| <= |s| && s[|s| - |suffix|..] == suffix
  }

  function FindFrom(s: string, needle: string, from: nat): (r: Option<nat>)
    decreases |s| - from
    ensures r.Some? ==> from <= r.value && OccursAt(s, needle, r.value)
    ensures forall q: nat :: from <= q && (r.Some? ==> q < r.value) ==> !OccursAt(s, needle, q)
  {
    if from + |needle| > |s| then None
    else if s[from..from + |needle|] == needle then Some(from)
    else FindFrom(s, needle, from + 1)
  }

  /** The first position at which `needle` occurs, or None for npos. */
  function Find(s: string, needle: string): (r: Option<nat>)
    ensures r.Some? ==> OccursAt(s, needle, r.value)
    ensures forall q: nat :: (r.Some? ==> q < r.value) ==> !OccursAt(s, needle, q)
  {
    FindFrom(s, needle, 0)
  }

  /** A text is what precedes an occurrence, the occurrence, and what follows it. */
  lemma CutAround(s: string, d: string, p: nat)
    requires OccursAt(s, d, p)
    ensures s == s[..p] + d + s[p + |d|..]
  {
    assert s[p..] == s[p..p + |d|] + s[p + |d|..];
    assert s == s[..p] + s[p..];
  }

  /** The occurrences in a prefix are those in the whole text that end within the prefix. */
  lemma PrefixOccurrences(s: string, d: string, p: nat)
    requires p <= |s|
    ensures forall q: nat :: OccursAt(s[..p], d, q) <==> q + |d| <= p && OccursAt(s, d, q)
  {
    forall q: nat | OccursAt(s[..p], d, q) || (q + |d| <= p && OccursAt(s, d, q))
      ensures s[..p][q..q + |d|] == s[q..q + |d|]
    {
    }
  }

  // ---------------------------------------------------------------------
  // split(str, delimiter)
  // ---------------------------------------------------------------------

  /**
   * The pieces `split` returns: the text before each occurrence of `d`,
   * scanning left to right, then the remainder if it is not empty.
   */
  function Pieces(s: string, d: string): (r: seq<string>)
    requires d != []
    decreases |s|
    ensures r == [] <==> s == []
  {
    match Find(s, d)
    case Some(p) => [s[..p]] + Pieces(s[p + |d|..], d)
    case None => if s == [] then [] else [s]
  }

  /** `split` with a single delimiter; an empty delimiter never terminates in the source. */
  method Split(str: string, delimiter: string) returns (result: seq<string>)
    requires delimiter != []
    ensures result == Pieces(str, delimiter)
  {
    result := [];
    var s := str;
    var pos := Find(s, delimiter);
    while pos.Some?
      invariant pos == Find(s, delimiter)
      invariant result + Pieces(s, delimiter) == Pieces(str, delimiter)
      decreases |s|
    {
      result := result + [s[..pos.value]];
      s := s[pos.value + |delimiter|..];
      pos := Find(s, delimiter);
    }
    if s != [] {
      result := result + [s];
    }
  }

  /** No piece returned by `split` contains the delimiter. */
  lemma {:induction false} PiecesAvoidDelimiter(s: string, d: string)
    requires d != []
    ensures forall i :: 0 <= i < |Pieces(s, d)| ==> !Contains(Pieces(s, d)[i], d)
    decreases |s|
  {
    match Find(s, d)
    case Some(p) =>
      PiecesAvoidDelimiter(s[p + |d|..], d);
      PrefixOccurrences(s, d, p);
    case None =>
  }

  // ---------------------------------------------------------------------
  // join(strings, delimiter)
  // ---------------------------------------------------------------------

  /** The parts with the delimiter between neighbours. */
  function Joined(parts: seq<string>, d: string): string
    requires |parts| > 0
  {
    if |parts| == 1 then parts[0] else parts[0] + d + Joined(parts[1..], d)
  }

  /** `join`; the source reads the front of the empty queue when there are no parts. */
  method Join(strings: seq<string>, delimiter: string) returns (r: string)
    requires |strings| > 0
    ensures r == Joined(strings, delimiter)
  {
    var q := strings;
    r := q[0];
    q := q[1..];
    while q != []
      invariant |q| < |strings| && q == strings[|strings| - |q|..]
      invariant Joined(strings, delimiter) == r + (if q == [] then [] else delimiter + Joined(q, delimiter))
      decreases |q|
    {
      r := r + delimiter + q[0];
      q := q[1..];
    }
  }

  /** `join` undoes `split` for a non-empty text that does not end with the delimiter. */
  lemma {:induction false} JoinSplit(s: string, d: string)
    requires d != [] && s != [] && !EndsWith(s, d)
    ensures |Pieces(s, d)| > 0 && Joined(Pieces(s, d), d) == s
    decreases |s|
  {
    match Find(s, d)
    case Some(p) =>
      var rest := s[p + |d|..];
      assert rest != [];
      assert !EndsWith(rest, d);
      JoinSplit(rest, d);
      CutAround(s, d, p);
    case None =>
  }

  /**
   * `split` undoes `join` for a one-character delimiter, when no part contains
   * it and the last part is not empty (split drops an empty remainder).
   */
  lemma {:induction false} SplitJoin(parts: seq<string>, c: char)
    requires |parts| > 0 && parts[|parts| - 1] != []
    requires forall i :: 0 <= i < |parts| ==> !Contains(parts[i], [c])
    ensures Pieces(Joined(parts, [c]), [c]) == parts
    decreases |parts|
  {
    var s := Joined(parts, [c]);
    if |parts| > 1 {
      var rest := Joined(parts[1..], [c]);
      var p := |parts[0]|;
      assert s == parts[0] + [c] + rest;
      assert s[..p] == parts[0];
      assert OccursAt(s, [c], p) by {
        assert s[p..p + 1] == [c];
      }
      PrefixOccurrences(s, [c], p);
      assert Find(s, [c]) == Some(p);
      assert s[p + 1..] == rest;
      SplitJoin(parts[1..], c);
    }
  }

  // ---------------------------------------------------------------------
  // findFirstOf and split(str, delimiters, delimiterList)
  // ---------------------------------------------------------------------

  /** The needle that won, by its index in the needle list, and where it occurs. */
  datatype Hit = Hit(index: nat, pos: nat)

  /** Where each needle first occurs in `h`, needle by needle. */
  function Positions(h: string, needles: seq<string>): (r: seq<Option<nat>>)
    ensures |r| == |needles|
    ensures forall j :: 0 <= j < |needles| ==> r[j] == Find(h, needles[j])
  {
    seq(|needles|, j requires 0 <= j < |needles| => Find(h, needles[j]))
  }

  /** `best` is the hit `findFirstOf` holds after trying the first n needles, found at `ps`. */
  predicate BestOf(ps: seq<Option<nat>>, n: nat, best: Option<Hit>)
    requires n <= |ps|
  {
    && (best.None? <==> forall j :: 0 <= j < n ==> ps[j].None?)
    && (best.Some? ==>
          && best.value.index < n
          && ps[best.value.index] == Some(best.value.pos)
          && (forall j :: 0 <= j < n && ps[j].Some? ==> best.value.pos <= ps[j].value)
          && (forall j :: 0 <= j < best.value.index && ps[j].Some? ==> best.value.pos < ps[j].value))
  }

  /** One step of the loop of `findFirstOf`: a later needle replaces the best only when strictly earlier. */
  function Better(ps: seq<Option<nat>>, from: nat, best: Option<Hit>): Option<Hit>
    requires from < |ps|
  {
    match ps[from]
    case None => best
    case Some(p) => if best.None? || p < best.value.pos then Some(Hit(from, p)) else best
  }

  /** The loop of `findFirstOf` from needle `from` on. */
  function FirstOfFrom(ps: seq<Option<nat>>, from: nat, best: Option<Hit>): Option<Hit>
    requires from <= |ps|
    decreases |ps| - from
  {
    if from == |ps| then best
    else FirstOfFrom(ps, from + 1, Better(ps, from, best))
  }

  /** A step keeps `best` the earliest hit so far, the first needle winning a tie. */
  lemma BetterBest(ps: seq<Option<nat>>, from: nat, best: Option<Hit>)
    requires from < |ps| && BestOf(ps, from, best)
    ensures BestOf(ps, from + 1, Better(ps, from, best))
  {
    if ps[from].Some? && (best.None? || ps[from].value < best.value.pos) {
      forall j | 0 <= j < from + 1 && ps[j].Some?
        ensures ps[from].value <= ps[j].value
      {
        if j < from {
          assert best.Some?;
        }
      }
    }
  }

  /** The whole loop finds the earliest hit, the first needle winning a tie. */
  lemma {:induction false} FirstOfFromBest(ps: seq<Option<nat>>, from: nat, best: Option<Hit>)
    requires from <= |ps| && BestOf(ps, from, best)
    ensures BestOf(ps, |ps|, FirstOfFrom(ps, from, best))
    decreases |ps| - from
  {
    if from < |ps| {
      BetterBest(ps, from, best);
      FirstOfFromBest(ps, from + 1, Better(ps, from, best));
    }
  }

  /**
   * The smallest position at which any needle occurs; on a tie the needle
   * earlier in the list wins.
   */
  function FirstOf(h: string, needles: seq<string>): Option<Hit>
  {
    FirstOfFrom(Positions(h, needles), 0, None)
  }

  /** `FirstOf` finds the earliest hit of all the needles. */
  lemma FirstOfBest(h: string, needles: seq<string>)
    ensures BestOf(Positions(h, needles), |needles|, FirstOf(h, needles))
  {
    FirstOfFromBest(Positions(h, needles), 0, None);
  }

  /** The first hit is an occurrence of the needle it names. */
  lemma FirstOfHit(h: string, needles: seq<string>)
    ensures FirstOf(h, needles).Some? ==>
              && FirstOf(h, needles).value.index < |needles|
              && OccursAt(h, needles[FirstOf(h, needles).value.index], FirstOf(h, needles).value.pos)
  {
    FirstOfBest(h, needles);
  }

  /** No needle occurs before the first hit, and none at all when there is no hit. */
  lemma FirstOfEarliest(h: string, needles: seq<string>)
    ensures forall j, q: nat :: 0 <= j < |needles| && (FirstOf(h, needles).Some? ==> q < FirstOf(h, needles).value.pos) ==>
              !OccursAt(h, needles[j], q)
  {
    var r := FirstOf(h, needles);
    var ps := Positions(h, needles);
    FirstOfBest(h, needles);
    forall j, q: nat | 0 <= j < |needles| && (r.Some? ==> q < r.value.pos)
      ensures !OccursAt(h, needles[j], q)
    {
      var f := Find(h, needles[j]);
      assert ps[j] == f;
      assert f.Some? ==> r.Some? && r.value.pos <= f.value;
    }
  }

  /**
   * The cut `findFirstOf` reports: the position of the first hit and the
   * delimiter found there.
   */
  function NextCut(s: string, delims: seq<string>): (r: Option<(nat, string)>)
    ensures r.Some? ==> r.value.1 in delims && OccursAt(s, r.value.1, r.value.0)
  {
    FirstOfHit(s, delims);
    match FirstOf(s, delims)
    case Some(hit) => Some((hit.pos, delims[hit.index]))
    case None => None
  }

  /** No delimiter occurs before the cut, and none at all when there is no cut. */
  lemma NextCutEarliest(s: string, delims: seq<string>)
    ensures forall j, q: nat :: 0 <= j < |delims| && (NextCut(s, delims).Some? ==> q < NextCut(s, delims).value.0) ==>
              !OccursAt(s, delims[j], q)
  {
    FirstOfEarliest(s, delims);
  }

  /**
   * `findFirstOf`: the position of the first hit, and the out-parameter
   * `foundDelimiter`, which keeps its old value when nothing is found.
   */
  method FindFirstOf(haystack: string, needles: seq<string>, foundDelimiter: string)
    returns (pos: Option<nat>, found: string)
    ensures NextCut(haystack, needles) == if pos.Some? then Some((pos.value, found)) else None
    ensures pos.None? ==> found == foundDelimiter
  {
    pos, found := None, foundDelimiter;
    ghost var best: Option<Hit> := None;
    ghost var ps := Positions(haystack, needles);
    for i := 0 to |needles|
      invariant FirstOfFrom(ps, i, best) == FirstOf(haystack, needles)
      invariant best.Some? ==> best.value.index < i
      invariant best.Some? ==> pos == Some(best.value.pos) && found == needles[best.value.index]
      invariant best.None? ==> pos.None? && found == foundDelimiter
    {
      var p := Find(haystack, needles[i]);
      if p.Some? {
        if pos.None? || p.value < pos.value {
          found := needles[i];
          pos := p;
          best := Some(Hit(i, p.value));
        }
      }
    }
  }

  predicate NonEmptyAll(delims: seq<string>) {
    forall j :: 0 <= j < |delims| ==> delims[j] != []
  }

  /**
   * The pieces and the delimiters cut out by the multi-delimiter `split`,
   * each cut at the first hit: one cut per piece, except that a non-empty
   * remainder is kept as a last piece with no cut after it; every cut is
   * one of the delimiters.
   */
  function MultiPieces(s: string, delims: seq<string>): (r: (seq<string>, seq<string>))
    requires NonEmptyAll(delims)
    decreases |s|
  {
    match NextCut(s, delims)
    case Some((p, d)) =>
      var rest := MultiPieces(s[p + |d|..], delims);
      ([s[..p]] + rest.0, [d] + rest.1)
    case None => (if s == [] then [] else [s], [])
  }

  /**
   * The multi-delimiter `split`. `delimiterList` is an in/out parameter of
   * the source: the cut delimiters are appended to what it already holds.
   */
  method SplitMulti(str: string, delimiters: seq<string>, delimiterList: seq<string>)
    returns (result: seq<string>, delimiterList': seq<string>)
    requires NonEmptyAll(delimiters)
    ensures result == MultiPieces(str, delimiters).0
    ensures delimiterList' == delimiterList + MultiPieces(str, delimiters).1
  {
    result, delimiterList' := [], delimiterList;
    var s := str;
    var pos: Option<nat>;
    var found: string := [];
    pos, found := FindFirstOf(s, delimiters, found);
    while pos.Some?
      invariant NextCut(s, delimiters) == if pos.Some? then Some((pos.value, found)) else None
      invariant result + MultiPieces(s, delimiters).0 == MultiPieces(str, delimiters).0
      invariant delimiterList' + MultiPieces(s, delimiters).1 == delimiterList + MultiPieces(str, delimiters).1
      decreases |s|
    {
      SplitMultiStep(str, delimiters, s, pos.value, found, result, delimiterList', delimiterList);
      result := result + [s[..pos.value]];
      delimiterList' := delimiterList' + [found];
      s := s[pos.value + |found|..];
      pos, found := FindFirstOf(s, delimiters, found);
    }
    MultiPiecesLast(s, delimiters);
    if s != [] {
      result := result + [s];
    }
  }

  /** One turn of the loop of the multi-delimiter `split` keeps its invariant. */
  lemma SplitMultiStep(str: string, delims: seq<string>, s: string, p: nat, d: string,
                       result: seq<string>, cuts: seq<string>, cuts0: seq<string>)
    requires NonEmptyAll(delims) && NextCut(s, delims) == Some((p, d))
    requires result + MultiPieces(s, delims).0 == MultiPieces(str, delims).0
    requires cuts + MultiPieces(s, delims).1 == cuts0 + MultiPieces(str, delims).1
    ensures p + |d| <= |s|
    ensures (result + [s[..p]]) + MultiPieces(s[p + |d|..], delims).0 == MultiPieces(str, delims).0
    ensures (cuts + [d]) + MultiPieces(s[p + |d|..], delims).1 == cuts0 + MultiPieces(str, delims).1
  {
    MultiPiecesUnfold(s, delims, p, d);
    var rest := MultiPieces(s[p + |d|..], delims);
    AppendAssoc(result, [s[..p]], rest.0);
    AppendAssoc(cuts, [d], rest.1);
  }

  /** Without a cut, the text is the last piece unless it is empty. */
  lemma MultiPiecesLast(s: string, delims: seq<string>)
    requires NonEmptyAll(delims) && NextCut(s, delims).None?
    ensures MultiPieces(s, delims) == (if s == [] then [] else [s], [])
  {
  }

  /** The cut at position `p` by delimiter `d` is the first step of the multi-delimiter split. */
  lemma MultiPiecesUnfold(s: string, delims: seq<string>, p: nat, d: string)
    requires NonEmptyAll(delims) && NextCut(s, delims) == Some((p, d))
    ensures p + |d| <= |s|
    ensures MultiPieces(s, delims)
            == ([s[..p]] + MultiPieces(s[p + |d|..], delims).0, [d] + MultiPieces(s[p + |d|..], delims).1)
  {
  }

  lemma AppendAssoc<T>(a: seq<T>, b: seq<T>, c: seq<T>)
    ensures (a + b) + c == a + (b + c)
  {
  }

  /** The pieces with the recorded delimiters put back between them. */
  function Interleave(parts: seq<string>, delims: seq<string>): string
    requires |delims| <= |parts| <= |delims| + 1
    decreases |parts|
  {
    if parts == [] then []
    else if delims == [] then parts[0]
    else parts[0] + delims[0] + Interleave(parts[1..], delims[1..])
  }

  /**
   * One cut per piece, except that a non-empty remainder is kept as a last
   * piece with no cut after it; every cut is one of the delimiters.
   */
  lemma {:induction false} MultiPiecesShape(s: string, delims: seq<string>)
    requires NonEmptyAll(delims)
    ensures |MultiPieces(s, delims).1| <= |MultiPieces(s, delims).0| <= |MultiPieces(s, delims).1| + 1
    ensures |MultiPieces(s, delims).0| == |MultiPieces(s, delims).1| + 1 ==>
              MultiPieces(s, delims).0[|MultiPieces(s, delims).0| - 1] != []
    ensures forall j :: 0 <= j < |MultiPieces(s, delims).1| ==> MultiPieces(s, delims).1[j] in delims
    decreases |s|
  {
    match NextCut(s, delims)
    case Some((p, d)) =>
      MultiPiecesUnfold(s, delims, p, d);
      MultiPiecesShape(s[p + |d|..], delims);
    case None =>
  }

  /** Putting the cut delimiters back between the pieces rebuilds the text exactly. */
  lemma {:induction false} MultiPiecesRebuild(s: string, delims: seq<string>)
    requires NonEmptyAll(delims)
    ensures |MultiPieces(s, delims).1| <= |MultiPieces(s, delims).0| <= |MultiPieces(s, delims).1| + 1
    ensures Interleave(MultiPieces(s, delims).0, MultiPieces(s, delims).1) == s
    decreases |s|
  {
    MultiPiecesShape(s, delims);
    match NextCut(s, delims)
    case Some((p, d)) =>
      MultiPiecesUnfold(s, delims, p, d);
      var rest := MultiPieces(s[p + |d|..], delims);
      MultiPiecesRebuild(s[p + |d|..], delims);
      InterleaveCons(s[..p], d, rest.0, rest.1);
      CutAround(s, d, p);
    case None =>
      MultiPiecesLast(s, delims);
  }

  lemma InterleaveCons(part: string, delim: string, parts: seq<string>, delims: seq<string>)
    requires |delims| <= |parts| <= |delims| + 1
    ensures Interleave([part] + parts, [delim] + delims) == part + delim + Interleave(parts, delims)
  {
    assert ([part] + parts)[1..] == parts;
    assert ([delim] + delims)[1..] == delims;
  }

  /** No piece of the multi-delimiter split contains any of the delimiters. */
  lemma {:induction false} MultiPiecesAvoid(s: string, delims: seq<string>)
    requires NonEmptyAll(delims)
    ensures forall i, j :: 0 <= i < |MultiPieces(s, delims).0| && 0 <= j < |delims| ==>
              !Contains(MultiPieces(s, delims).0[i], delims[j])
    decreases |s|
  {
    NextCutEarliest(s, delims);
    match NextCut(s, delims)
    case Some((p, d)) =>
      MultiPiecesUnfold(s, delims, p, d);
      MultiPiecesAvoid(s[p + |d|..], delims);
      forall j | 0 <= j < |delims|
        ensures !Contains(s[..p], delims[j])
      {
        PrefixOccurrences(s, delims[j], p);
      }
    case None =>
  }

  // ---------------------------------------------------------------------
  // to_lower, to_upper
  // ---------------------------------------------------------------------

  predicate IsUpper(c: char) { 'A' <= c <= 'Z' }
  predicate IsLower(c: char) { 'a' <= c <= 'z' }

  /** std::tolower in the "C" locale. */
  function LowerChar(c: char): char {
    if IsUpper(c) then (c as int + 32) as char else c
  }

  /** std::toupper in the "C" locale. */
  function UpperChar(c: char): char {
    if IsLower(c) then (c as int - 32) as char else c
  }

  /** `to_lower`: same length, only ASCII capitals change, and none is left. */
  function ToLower(s: string): (r: string)
    ensures |r| == |s|
    ensures forall i :: 0 <= i < |s| && !IsUpper(s[i]) ==> r[i] == s[i]
    ensures forall i :: 0 <= i < |s| && IsUpper(s[i]) ==> IsLower(r[i]) && r[i] as int == s[i] as int + 32
    ensures forall i :: 0 <= i < |r| ==> !IsUpper(r[i])
  {
    seq(|s|, i requires 0 <= i < |s| => LowerChar(s[i]))
  }

  /** `to_upper`: same length, only ASCII small letters change, and none is left. */
  function ToUpper(s: string): (r: string)
    ensures |r| == |s|
    ensures forall i :: 0 <= i < |s| && !IsLower(s[i]) ==> r[i] == s[i]
    ensures forall i :: 0 <= i < |s| && IsLower(s[i]) ==> IsUpper(r[i]) && r[i] as int == s[i] as int - 32
    ensures forall i :: 0 <= i < |r| ==> !IsLower(r[i])
  {
    seq(|s|, i requires 0 <= i < |s| => UpperChar(s[i]))
  }

  /** Lower-casing forgets the case: it agrees on a text and its upper-cased form, and is idempotent. */
  lemma CaseFolding(s: string)
    ensures ToLower(ToUpper(s)) == ToLower(s)
    ensures ToLower(ToLower(s)) == ToLower(s)
  {
  }

  // ---------------------------------------------------------------------
  // align_text
  // ---------------------------------------------------------------------

  datatype TextAlign = Left | Center | Right

  function Spaces(n: nat): (r: string)
    ensures |r| == n && forall i :: 0 <= i < n ==> r[i] == ' '
  {
    seq(n, _ => ' ')
  }

  /** Padding that alignment puts before a line that is `diff` characters short. */
  function LeadPad(align: TextAlign, diff: nat): nat {
    match align
    case Left => 0
    case Center => diff / 2
    case Right => diff
  }

  /** Where `align_text` places a line within the width. */
  function Lead(line: string, width: nat, align: TextAlign): nat {
    if |line| < width then LeadPad(align, width - |line|) else 0
  }

  /**
   * `align_text`: a line at least `width` long is returned unchanged; a
   * shorter one gets the leading padding of its alignment, and trailing
   * padding up to `width` only when `padRight` is set.
   */
  function AlignText(line: string, width: nat, align: TextAlign, padRight: bool): (r: string)
    ensures |line| >= width ==> r == line
    ensures |r| >= Lead(line, width, align) + |line|
    ensures r[Lead(line, width, align)..Lead(line, width, align) + |line|] == line
    ensures forall i :: 0 <= i < Lead(line, width, align) ==> r[i] == ' '
    ensures forall i :: Lead(line, width, align) + |line| <= i < |r| ==> r[i] == ' '
    ensures padRight ==> |r| == if |line| < width then width else |line|
    ensures !padRight ==> |r| == Lead(line, width, align) + |line|
    ensures align == Left && !padRight ==> r == line
  {
    if |line| < width then
      var diff := width - |line|;
      var pad1 := if align == Center then diff / 2 else if align == Right then diff else 0;
      var pad2 := if align == Left then diff else if align == Center then pad1 + diff % 2 else 0;
      var l := if pad1 > 0 then Spaces(pad1) + line else line;
      if pad2 > 0 && padRight then l + Spaces(pad2) else l
    else line
  }

  /** Centring with right padding puts the larger half of the slack after the line. */
  lemma CenterSplitsSlack(line: string, width: nat)
    requires |line| < width
    ensures |AlignText(line, width, Center, true)| - Lead(line, width, Center) - |line|
            == Lead(line, width, Center) + (width - |line|) % 2
  {
  }

  // ---------------------------------------------------------------------
  // Blank characters and concatenation
  // ---------------------------------------------------------------------

  /** The characters `to_block` splits on. */
  predicate IsBlank(c: char) { c == ' ' || c == '\t' || c == '\n' }

  predicate NoBlank(s: string) {
    forall i :: 0 <= i < |s| ==> !IsBlank(s[i])
  }

  /** The text with its blank characters deleted. */
  function Strip(s: string): (r: string)
    decreases |s|
  {
    if s == [] then [] else (if IsBlank(s[0]) then [] else [s[0]]) + Strip(s[1..])
  }

  lemma {:induction false} StripConcat(a: string, b: string)
    ensures Strip(a + b) == Strip(a) + Strip(b)
    decreases |a|
  {
    if a != [] {
      assert (a + b)[1..] == a[1..] + b;
      StripConcat(a[1..], b);
    } else {
      assert a + b == b;
    }
  }

  lemma {:induction false} StripNoBlank(s: string)
    requires NoBlank(s)
    ensures Strip(s) == s
    decreases |s|
  {
    if s != [] {
      StripNoBlank(s[1..]);
    }
  }

  lemma {:induction false} StripSpaces(n: nat)
    ensures Strip(Spaces(n)) == []
    decreases n
  {
    if n > 0 {
      assert Spaces(n)[1..] == Spaces(n - 1);
      StripSpaces(n - 1);
    }
  }

  function Concat(ss: seq<string>): string
    decreases |ss|
  {
    if ss == [] then [] else ss[0] + Concat(ss[1..])
  }

  lemma {:induction false} ConcatAppend(a: seq<string>, b: seq<string>)
    ensures Concat(a + b) == Concat(a) + Concat(b)
    decreases |a|
  {
    if a == [] {
      assert a + b == b;
    } else {
      assert (a + b)[1..] == a[1..] + b;
      ConcatAppend(a[1..], b);
    }
  }

  lemma ConcatOne(s: string)
    ensures Concat([s]) == s
  {
    assert [s][1..] == [];
  }

  // ---------------------------------------------------------------------
  // to_block
  // ---------------------------------------------------------------------

  /** Every string is non-empty and at most `width` long. */
  predicate Fits(lines: seq<string>, width: nat) {
    forall i :: 0 <= i < |lines| ==> 0 < |lines[i]| <= width
  }

  /** Every delimiter consists of blanks only. */
  predicate AllBlank(delims: seq<string>) {
    forall j :: 0 <= j < |delims| ==> Strip(delims[j]) == []
  }

  /**
   * A word cut into `width`-sized chunks: every chunk but the last is
   * exactly `width` long, none is empty, and together they spell the word.
   */
  function Chunks(part: string, width: nat): seq<string>
    requires width > 0
    decreases |part|
  {
    if |part| > width then [part[..width]] + Chunks(part[width..], width)
    else if part == [] then []
    else [part]
  }

  /** The chunks spell the word, fit the width, and all but the last are full. */
  lemma {:induction false} ChunksSpell(part: string, width: nat)
    requires width > 0
    ensures Concat(Chunks(part, width)) == part
    ensures Fits(Chunks(part, width), width)
    ensures forall i :: 0 <= i < |Chunks(part, width)| - 1 ==> |Chunks(part, width)[i]| == width
    ensures Chunks(part, width) == [] <==> part == []
    decreases |part|
  {
    if |part| > width {
      ChunksSpell(part[width..], width);
      assert part == part[..width] + part[width..];
    } else if part != [] {
      ConcatOne(part);
    }
  }

  function Linefeeds(n: nat): (r: seq<string>)
    ensures |r| == n && forall i :: 0 <= i < n ==> r[i] == LINEFEED
  {
    seq(n, _ => LINEFEED)
  }

  /** The delimiters the first loop of `to_block` records for raw part k. */
  function PartDelims(rawParts: seq<string>, rawDelims: seq<string>, width: nat, k: nat): seq<string>
    requires width > 0 && k < |rawParts|
  {
    Linefeeds(LinefeedCount(rawParts[k], width)) + (if k < |rawDelims| then [rawDelims[k]] else [])
  }

  /**
   * The first loop of `to_block` after n raw parts: the parts and the
   * delimiter list it has built. Each raw part contributes its chunks, one
   * LINEFEED after every chunk but the last, and then its own delimiter;
   * an empty raw part contributes only its delimiter.
   */
  function Layout(rawParts: seq<string>, rawDelims: seq<string>, width: nat, n: nat): (r: (seq<string>, seq<string>))
    requires width > 0 && n <= |rawParts|
    decreases n
  {
    if n == 0 then ([], [])
    else
      var prev := Layout(rawParts, rawDelims, width, n - 1);
      (prev.0 + Chunks(rawParts[n - 1], width), prev.1 + PartDelims(rawParts, rawDelims, width, n - 1))
  }

  /** The parts built by the first loop are non-empty and fit the width. */
  lemma {:induction false} LayoutFits(rawParts: seq<string>, rawDelims: seq<string>, width: nat, n: nat)
    requires width > 0 && n <= |rawParts|
    ensures Fits(Layout(rawParts, rawDelims, width, n).0, width)
    decreases n
  {
    if n > 0 {
      LayoutFits(rawParts, rawDelims, width, n - 1);
      ChunksSpell(rawParts[n - 1], width);
      FitsAppend(Layout(rawParts, rawDelims, width, n - 1).0, Chunks(rawParts[n - 1], width), width);
    }
  }

  lemma FitsAppend(a: seq<string>, b: seq<string>, width: nat)
    requires Fits(a, width) && Fits(b, width)
    ensures Fits(a + b, width)
  {
    assert forall i :: 0 <= i < |a + b| ==> (a + b)[i] == if i < |a| then a[i] else b[i - |a|];
  }

  /** The parts built by the first loop spell the raw parts. */
  lemma {:induction false} LayoutParts(rawParts: seq<string>, rawDelims: seq<string>, width: nat, n: nat)
    requires width > 0 && n <= |rawParts|
    ensures Concat(Layout(rawParts, rawDelims, width, n).0) == Concat(rawParts[..n])
    decreases n
  {
    if n > 0 {
      LayoutParts(rawParts, rawDelims, width, n - 1);
      LayoutNext(rawParts, rawDelims, width, n - 1);
      var prev := Layout(rawParts, rawDelims, width, n - 1);
      var c := Chunks(rawParts[n - 1], width);
      ChunksSpell(rawParts[n - 1], width);
      ConcatAppend(prev.0, c);
      assert rawParts[..n] == rawParts[..n - 1] + [rawParts[n - 1]];
      ConcatAppend(rawParts[..n - 1], [rawParts[n - 1]]);
      ConcatOne(rawParts[n - 1]);
    }
  }

  /** The delimiter list of the first loop is blank when the raw delimiters are. */
  lemma {:induction false} LayoutDelims(rawParts: seq<string>, rawDelims: seq<string>, width: nat, n: nat)
    requires width > 0 && n <= |rawParts| && AllBlank(rawDelims)
    ensures AllBlank(Layout(rawParts, rawDelims, width, n).1)
    decreases n
  {
    if n > 0 {
      LayoutDelims(rawParts, rawDelims, width, n - 1);
      LayoutNext(rawParts, rawDelims, width, n - 1);
      PartDelimsBlank(rawParts, rawDelims, width, n - 1);
      AllBlankAppend(Layout(rawParts, rawDelims, width, n - 1).1, PartDelims(rawParts, rawDelims, width, n - 1));
    }
  }

  /** The delimiters recorded for one raw part are blank when the raw delimiters are. */
  lemma PartDelimsBlank(rawParts: seq<string>, rawDelims: seq<string>, width: nat, k: nat)
    requires width > 0 && k < |rawParts| && AllBlank(rawDelims)
    ensures AllBlank(PartDelims(rawParts, rawDelims, width, k))
  {
    var lfs := Linefeeds(LinefeedCount(rawParts[k], width));
    LinefeedsBlank(LinefeedCount(rawParts[k], width));
    var own: seq<string> := if k < |rawDelims| then [rawDelims[k]] else [];
    assert AllBlank(own);
    AllBlankAppend(lfs, own);
  }

  lemma LinefeedsBlank(n: nat)
    ensures AllBlank(Linefeeds(n))
  {
    StripOne('\n');
  }

  lemma AllBlankAppend(a: seq<string>, b: seq<string>)
    requires AllBlank(a) && AllBlank(b)
    ensures AllBlank(a + b)
  {
    assert forall i :: 0 <= i < |a + b| ==> (a + b)[i] == if i < |a| then a[i] else b[i - |a|];
  }

  /** The second loop of `to_block`: greedy packing of the parts into aligned lines. */
  function Pack(parts: seq<string>, delims: seq<string>, width: nat, align: TextAlign, i: nat, cur: string): (r: seq<string>)
    requires i <= |parts|
    requires forall j :: 0 <= j < |parts| ==> |parts[j]| <= width
    decreases |parts| - i, |cur|
  {
    if i == |parts| then
      if cur == [] then [] else [AlignText(cur, width, align, false)]
    else if |cur| + |parts[i]| <= width then
      var line := cur + parts[i];
      if i < |delims| && delims[i] == LINEFEED then
        [AlignText(line, width, align, false)] + Pack(parts, delims, width, align, i + 1, [])
      else if i < |delims| && |line| + |delims[i]| > width then
        [AlignText(line, width, align, false)] + Pack(parts, delims, width, align, i + 1, [])
      else if i < |delims| then
        Pack(parts, delims, width, align, i + 1, line + delims[i])
      else
        Pack(parts, delims, width, align, i + 1, line)
    else
      // the part does not fit: close the current line and try it again on a fresh one
      [AlignText(cur, width, align, false)] + Pack(parts, delims, width, align, i, [])
  }

  /** What `to_block` returns. */
  function Block(str: string, width: nat, align: TextAlign): seq<string>
    requires width > 0
  {
    var raw := MultiPieces(str, BlockDelimiters);
    var laid := Layout(raw.0, raw.1, width, |raw.0|);
    LayoutFits(raw.0, raw.1, width, |raw.0|);
    Pack(laid.0, laid.1, width, align, 0, [])
  }

  /** Aligning without right padding keeps a line within the width and adds only blanks. */
  lemma AlignedLine(line: string, width: nat, align: TextAlign)
    requires 0 < |line| <= width
    ensures 0 < |AlignText(line, width, align, false)| <= width
    ensures Strip(AlignText(line, width, align, false)) == Strip(line)
  {
    var r := AlignText(line, width, align, false);
    var lead := Lead(line, width, align);
    assert r == Spaces(lead) + line;
    StripConcat(Spaces(lead), line);
    StripSpaces(lead);
  }

  /** Strip of an aligned line followed by more lines. */
  lemma StripAlignedCons(line: string, width: nat, align: TextAlign, rest: seq<string>)
    requires 0 < |line| <= width
    ensures Strip(Concat([AlignText(line, width, align, false)] + rest)) == Strip(line) + Strip(Concat(rest))
  {
    var a := AlignText(line, width, align, false);
    assert ([a] + rest)[1..] == rest;
    assert Concat([a] + rest) == a + Concat(rest);
    StripConcat(a, Concat(rest));
    AlignedLine(line, width, align);
  }

  /** Every packed line is non-empty and fits the width. */
  lemma {:induction false} PackFits(parts: seq<string>, delims: seq<string>, width: nat, align: TextAlign, i: nat, cur: string)
    requires i <= |parts| && |cur| <= width && Fits(parts, width)
    ensures Fits(Pack(parts, delims, width, align, i, cur), width)
    decreases |parts| - i, |cur|
  {
    if i == |parts| {
      if cur != [] {
        AlignedLine(cur, width, align);
      }
    } else if |cur| + |parts[i]| <= width {
      var line := cur + parts[i];
      if i < |delims| && (delims[i] == LINEFEED || |line| + |delims[i]| > width) {
        PackFits(parts, delims, width, align, i + 1, []);
        AlignedLine(line, width, align);
      } else if i < |delims| {
        PackFits(parts, delims, width, align, i + 1, line + delims[i]);
      } else {
        PackFits(parts, delims, width, align, i + 1, line);
      }
    } else {
      PackFits(parts, delims, width, align, i, []);
      AlignedLine(cur, width, align);
    }
  }

  /** Packing produces a line exactly when something is left to pack. */
  lemma {:induction false} PackEmpty(parts: seq<string>, delims: seq<string>, width: nat, align: TextAlign, i: nat, cur: string)
    requires i <= |parts| && Fits(parts, width)
    ensures Pack(parts, delims, width, align, i, cur) == [] <==> cur == [] && i == |parts|
    decreases |parts| - i, |cur|
  {
    if i < |parts| && |cur| + |parts[i]| <= width {
      var line := cur + parts[i];
      if i < |delims| && !(delims[i] == LINEFEED || |line| + |delims[i]| > width) {
        PackEmpty(parts, delims, width, align, i + 1, line + delims[i]);
      } else if !(i < |delims|) {
        PackEmpty(parts, delims, width, align, i + 1, line);
      }
    }
  }

  /** Deleting blanks from the packed lines leaves the current line and the parts with blanks deleted. */
  lemma {:induction false} PackStrip(parts: seq<string>, delims: seq<string>, width: nat, align: TextAlign, i: nat, cur: string)
    requires i <= |parts| && |cur| <= width
    requires Fits(parts, width) && AllBlank(delims)
    ensures Strip(Concat(Pack(parts, delims, width, align, i, cur))) == Strip(cur) + Strip(Concat(parts[i..]))
    decreases |parts| - i, |cur|, 2
  {
    if i == |parts| {
      var lines := Pack(parts, delims, width, align, i, cur);
      assert parts[i..] == [];
      assert Strip(Concat(parts[i..])) == [];
      if cur != [] {
        StripAlignedCons(cur, width, align, []);
        assert lines == [AlignText(cur, width, align, false)] + [];
      }
    } else if |cur| + |parts[i]| <= width {
      PackStripFit(parts, delims, width, align, i, cur);
    } else {
      PackStripWrap(parts, delims, width, align, i, cur);
    }
  }

  /** PackStrip when parts[i] fits on the current line. */
  lemma {:induction false} PackStripFit(parts: seq<string>, delims: seq<string>, width: nat, align: TextAlign, i: nat, cur: string)
    requires i < |parts| && |cur| + |parts[i]| <= width
    requires Fits(parts, width) && AllBlank(delims)
    ensures Strip(Concat(Pack(parts, delims, width, align, i, cur))) == Strip(cur) + Strip(Concat(parts[i..]))
    decreases |parts| - i, |cur|, 1
  {
    var line := cur + parts[i];
    var tail := Strip(Concat(parts[i + 1..]));
    StripParts(parts, i);
    StripConcat(cur, parts[i]);
    AppendAssoc(Strip(cur), Strip(parts[i]), tail);
    // what remains: the rest of the packing strips to Strip(line) + tail
    if i < |delims| && (delims[i] == LINEFEED || |line| + |delims[i]| > width) {
      PackStripClose(parts, delims, width, align, i, line);
    } else if i < |delims| {
      PackStripGrow(parts, delims, width, align, i, line);
    } else {
      assert Pack(parts, delims, width, align, i, cur) == Pack(parts, delims, width, align, i + 1, line);
      PackStrip(parts, delims, width, align, i + 1, line);
    }
  }

  /** The line ending with parts[i] is closed, and packing resumes on a fresh line. */
  lemma {:induction false} PackStripClose(parts: seq<string>, delims: seq<string>, width: nat, align: TextAlign, i: nat, line: string)
    requires i < |parts| && i < |delims| && 0 < |line| <= width
    requires Fits(parts, width) && AllBlank(delims)
    ensures Strip(Concat([AlignText(line, width, align, false)] + Pack(parts, delims, width, align, i + 1, [])))
            == Strip(line) + Strip(Concat(parts[i + 1..]))
    decreases |parts| - i, 0, 0
  {
    var rest := Pack(parts, delims, width, align, i + 1, []);
    PackStrip(parts, delims, width, align, i + 1, []);
    assert Strip([]) == [];
    assert Strip(Concat(rest)) == Strip(Concat(parts[i + 1..]));
    StripAlignedCons(line, width, align, rest);
  }

  /** The blank delimiter after parts[i] joins the line, which stays open. */
  lemma {:induction false} PackStripGrow(parts: seq<string>, delims: seq<string>, width: nat, align: TextAlign, i: nat, line: string)
    requires i < |parts| && i < |delims| && |line| + |delims[i]| <= width
    requires Fits(parts, width) && AllBlank(delims)
    ensures Strip(Concat(Pack(parts, delims, width, align, i + 1, line + delims[i])))
            == Strip(line) + Strip(Concat(parts[i + 1..]))
    decreases |parts| - i, 0, 0
  {
    PackStrip(parts, delims, width, align, i + 1, line + delims[i]);
    StripConcat(line, delims[i]);
    assert Strip(delims[i]) == [];
    assert Strip(line + delims[i]) == Strip(line);
  }

  /** PackStrip when parts[i] does not fit: the current line is closed first. */
  lemma {:induction false} PackStripWrap(parts: seq<string>, delims: seq<string>, width: nat, align: TextAlign, i: nat, cur: string)
    requires i < |parts| && |cur| <= width < |cur| + |parts[i]|
    requires Fits(parts, width) && AllBlank(delims)
    ensures Strip(Concat(Pack(parts, delims, width, align, i, cur))) == Strip(cur) + Strip(Concat(parts[i..]))
    decreases |parts| - i, |cur|, 0
  {
    var rest := Pack(parts, delims, width, align, i, []);
    assert Pack(parts, delims, width, align, i, cur) == [AlignText(cur, width, align, false)] + rest;
    PackStrip(parts, delims, width, align, i, []);
    assert Strip([]) == [];
    StripAlignedCons(cur, width, align, rest);
  }

  /** Deleting blanks from parts[i..] splits off parts[i]. */
  lemma StripParts(parts: seq<string>, i: nat)
    requires i < |parts|
    ensures Strip(Concat(parts[i..])) == Strip(parts[i]) + Strip(Concat(parts[i + 1..]))
  {
    assert parts[i..][1..] == parts[i + 1..];
    assert Concat(parts[i..]) == parts[i] + Concat(parts[i + 1..]);
    StripConcat(parts[i], Concat(parts[i + 1..]));
  }

  /** Putting blank delimiters back between pieces and deleting blanks gives the pieces with blanks deleted. */
  lemma {:induction false} StripInterleave(parts: seq<string>, delims: seq<string>)
    requires |delims| <= |parts| <= |delims| + 1
    requires AllBlank(delims)
    ensures Strip(Interleave(parts, delims)) == Strip(Concat(parts))
    decreases |parts|
  {
    if parts != [] {
      if delims == [] {
        assert parts == [parts[0]];
        ConcatOne(parts[0]);
      } else {
        StripInterleave(parts[1..], delims[1..]);
        StripConcat(parts[0] + delims[0], Interleave(parts[1..], delims[1..]));
        StripConcat(parts[0], delims[0]);
        StripConcat(parts[0], Concat(parts[1..]));
      }
    }
  }

  /** Concatenating blank-free strings and deleting blanks changes nothing. */
  lemma {:induction false} StripConcatNoBlank(ss: seq<string>)
    requires forall i :: 0 <= i < |ss| ==> NoBlank(ss[i])
    ensures Strip(Concat(ss)) == Concat(ss)
    decreases |ss|
  {
    if ss != [] {
      StripConcatNoBlank(ss[1..]);
      StripConcat(ss[0], Concat(ss[1..]));
      StripNoBlank(ss[0]);
    }
  }

  lemma {:induction false} ConcatEmpty(ss: seq<string>)
    requires forall i :: 0 <= i < |ss| ==> ss[i] != []
    ensures Concat(ss) == [] <==> ss == []
  {
    if ss != [] {
      assert |Concat(ss)| >= |ss[0]|;
    }
  }

  /** A piece of the `to_block` split holds none of the blank characters. */
  lemma RawPartsNoBlank(str: string)
    ensures forall i :: 0 <= i < |MultiPieces(str, BlockDelimiters).0| ==> NoBlank(MultiPieces(str, BlockDelimiters).0[i])
  {
    var rawParts := MultiPieces(str, BlockDelimiters).0;
    MultiPiecesAvoid(str, BlockDelimiters);
    forall i, k | 0 <= i < |rawParts| && 0 <= k < |rawParts[i]|
      ensures !IsBlank(rawParts[i][k])
    {
      var c := rawParts[i][k];
      var j := if c == ' ' then 0 else if c == '\n' then 1 else 2;
      assert IsBlank(c) ==> OccursAt(rawParts[i], BlockDelimiters[j], k);
    }
  }

  /** The blank delimiters delete to nothing. */
  lemma BlankDelimiters(delims: seq<string>)
    requires forall j :: 0 <= j < |delims| ==> delims[j] in BlockDelimiters
    ensures AllBlank(delims)
  {
    StripOne(' ');
    StripOne('\n');
    StripOne('\t');
  }

  lemma StripOne(c: char)
    ensures Strip([c]) == if IsBlank(c) then [] else [c]
  {
    assert [c][1..] == [];
  }

  /**
   * `to_block` with a positive width: every line is non-empty and at most
   * `width` long; deleting blanks from the lines gives the input with its
   * blanks deleted; and there are no lines exactly when the input is empty
   * or blank.
   */
  lemma BlockLines(str: string, width: nat, align: TextAlign)
    requires width > 0
    ensures Fits(Block(str, width, align), width)
    ensures Strip(Concat(Block(str, width, align))) == Strip(str)
    ensures Block(str, width, align) == [] <==> Strip(str) == []
  {
    var raw := MultiPieces(str, BlockDelimiters);
    var laid := Layout(raw.0, raw.1, width, |raw.0|);
    MultiPiecesRebuild(str, BlockDelimiters);
    LayoutParts(raw.0, raw.1, width, |raw.0|);
    LayoutFits(raw.0, raw.1, width, |raw.0|);
    assert raw.0[..|raw.0|] == raw.0;
    MultiPiecesShape(str, BlockDelimiters);
    BlankDelimiters(raw.1);
    LayoutDelims(raw.0, raw.1, width, |raw.0|);
    PackFits(laid.0, laid.1, width, align, 0, []);
    PackEmpty(laid.0, laid.1, width, align, 0, []);
    PackStrip(laid.0, laid.1, width, align, 0, []);
    assert laid.0[0..] == laid.0;
    StripInterleave(raw.0, raw.1);
    RawPartsNoBlank(str);
    StripConcatNoBlank(raw.0);
    ConcatEmpty(laid.0);
  }

  /** `to_block` of a text that is not blank has a first line. */
  lemma BlockNotEmpty(str: string, width: nat, align: TextAlign)
    requires width > 0 && Strip(str) != []
    ensures |Block(str, width, align)| > 0
  {
    BlockLines(str, width, align);
  }

  /** The first loop of `to_block` after one more raw part. */
  lemma LayoutNext(rawParts: seq<string>, rawDelims: seq<string>, width: nat, n: nat)
    requires width > 0 && n < |rawParts|
    ensures Layout(rawParts, rawDelims, width, n + 1).0
            == Layout(rawParts, rawDelims, width, n).0 + Chunks(rawParts[n], width)
    ensures Layout(rawParts, rawDelims, width, n + 1).1
            == Layout(rawParts, rawDelims, width, n).1 + PartDelims(rawParts, rawDelims, width, n)
  {
  }

  /** How many of the first n raw parts are empty (two blanks in a row leave one between them). */
  function EmptyCount(rawParts: seq<string>, n: nat): nat
    requires n <= |rawParts|
  {
    if n == 0 then 0 else EmptyCount(rawParts, n - 1) + (if rawParts[n - 1] == [] then 1 else 0)
  }

  /**
   * The first loop of `to_block` drops an empty raw part but still records
   * its delimiter, so the delimiter list runs ahead of the part list by the
   * number of empty raw parts so far. The delimiter of raw part n - 1 thus
   * sits EmptyCount places after its last chunk: it is paired with that
   * chunk, as the second loop reads the lists, only when no raw part before
   * it was empty.
   */
  lemma {:induction false} LayoutOutOfStep(rawParts: seq<string>, rawDelims: seq<string>, width: nat, n: nat)
    requires width > 0 && n <= |rawParts| && n <= |rawDelims|
    ensures |Layout(rawParts, rawDelims, width, n).1|
            == |Layout(rawParts, rawDelims, width, n).0| + EmptyCount(rawParts, n)
    ensures n > 0 && rawParts[n - 1] != [] ==>
              |Layout(rawParts, rawDelims, width, n).0| > 0
              && Layout(rawParts, rawDelims, width, n).1[|Layout(rawParts, rawDelims, width, n).0| - 1 + EmptyCount(rawParts, n)]
                 == rawDelims[n - 1]
    decreases n
  {
    if n > 0 {
      LayoutOutOfStep(rawParts, rawDelims, width, n - 1);
      LayoutNext(rawParts, rawDelims, width, n - 1);
      ChunksSpell(rawParts[n - 1], width);
      var own := PartDelims(rawParts, rawDelims, width, n - 1);
      assert |own| == LinefeedCount(rawParts[n - 1], width) + 1;
      assert own[|own| - 1] == rawDelims[n - 1];
    }
  }

  /**
   * With no empty raw part the two lists stay in step: each raw part's last
   * chunk is followed by that raw part's own delimiter, so a LINEFEED there
   * ends the line in the second loop.
   */
  lemma LayoutInStep(rawParts: seq<string>, rawDelims: seq<string>, width: nat, n: nat)
    requires width > 0 && 0 < n <= |rawParts| && n <= |rawDelims|
    requires forall k :: 0 <= k < n ==> rawParts[k] != []
    ensures |Layout(rawParts, rawDelims, width, n).1| == |Layout(rawParts, rawDelims, width, n).0| > 0
    ensures Layout(rawParts, rawDelims, width, n).1[|Layout(rawParts, rawDelims, width, n).0| - 1] == rawDelims[n - 1]
  {
    NoEmptyCount(rawParts, n);
    LayoutOutOfStep(rawParts, rawDelims, width, n);
  }

  lemma {:induction false} NoEmptyCount(rawParts: seq<string>, n: nat)
    requires n <= |rawParts|
    requires forall k :: 0 <= k < n ==> rawParts[k] != []
    ensures EmptyCount(rawParts, n) == 0
    decreases n
  {
    if n > 0 {
      NoEmptyCount(rawParts, n - 1);
    }
  }

  /** A one-character needle is found at the first index holding that character. */
  lemma FindChar(s: string, c: char, p: nat)
    requires p <= |s| && (p < |s| ==> s[p] == c)
    requires forall i :: 0 <= i < p ==> s[i] != c
    ensures Find(s, [c]) == if p < |s| then Some(p) else None
  {
    forall q: nat | q < |s|
      ensures OccursAt(s, [c], q) <==> s[q] == c
    {
      assert s[q..q + 1] == [s[q]];
    }
    var r := Find(s, [c]);
    if r.Some? {
      assert r.value < |s| && s[r.value] == c;
    }
  }

  /** The first cut of the `to_block` delimiters, from where each of them is first found. */
  lemma BlockCut(h: string, p0: Option<nat>, p1: Option<nat>, p2: Option<nat>)
    requires Find(h, " ") == p0 && Find(h, LINEFEED) == p1 && Find(h, "\t") == p2
    ensures FirstOf(h, BlockDelimiters) == FirstOfFrom([p0, p1, p2], 0, None)
  {
    assert Positions(h, BlockDelimiters) == [p0, p1, p2];
  }

  /**
   * A blank before a line break empties the raw part between them, and the
   * line break is lost: "a \nb" is one line, where the text asks for two.
   */
  lemma BlockLinefeedLost()
    ensures Block("a \nb", 80, Left) == ["a b"]
  {
    PiecesLost();
    LayoutLost();
    PackLost();
  }

  /** Without the blank the same line break does start a new line. */
  lemma BlockLinefeedKept()
    ensures Block("a\nb", 80, Left) == ["a", "b"]
  {
    PiecesKept();
    LayoutKept();
    PackKept();
  }

  /** A single letter that is no `to_block` delimiter is a last piece of its own. */
  lemma PiecesLetter(s: string)
    requires |s| == 1 && s[0] != ' ' && s[0] != '\n' && s[0] != '\t'
    ensures MultiPieces(s, BlockDelimiters) == ([s], [])
  {
    FindChar(s, ' ', 1);
    FindChar(s, '\n', 1);
    FindChar(s, '\t', 1);
    BlockCut(s, None, None, None);
    assert FirstOfFrom([None, None, None], 0, None) == None;
  }

  /** The split of "\nb": an empty piece before the line break. */
  lemma PiecesLinefeed()
    ensures MultiPieces("\nb", BlockDelimiters) == (["", "b"], [LINEFEED])
  {
    var s := "\nb";
    FindChar(s, ' ', 2);
    FindChar(s, '\n', 0);
    FindChar(s, '\t', 2);
    BlockCut(s, None, Some(0), None);
    assert FirstOfFrom([None, Some(0), None], 0, None) == Some(Hit(1, 0));
    assert NextCut(s, BlockDelimiters) == Some((0, LINEFEED));
    PiecesCut(s, BlockDelimiters, 0, LINEFEED);
    assert s[..0] == "" && s[1..] == "b";
    PiecesLetter("b");
    var m := MultiPieces(s, BlockDelimiters);
    assert m.0 == [""] + ["b"] == ["", "b"];
    assert m.1 == [LINEFEED] + [] == [LINEFEED];
  }

  /** The split of "a \nb": the blank cuts first and leaves the empty piece. */
  lemma PiecesLost()
    ensures MultiPieces("a \nb", BlockDelimiters) == (["a", "", "b"], [" ", LINEFEED])
  {
    var s := "a \nb";
    FindChar(s, ' ', 1);
    FindChar(s, '\n', 2);
    FindChar(s, '\t', 4);
    BlockCut(s, Some(1), Some(2), None);
    assert FirstOfFrom([Some(1), Some(2), None], 0, None) == Some(Hit(0, 1));
    assert NextCut(s, BlockDelimiters) == Some((1, " "));
    PiecesCut(s, BlockDelimiters, 1, " ");
    assert s[..1] == "a" && s[2..] == "\nb";
    PiecesLinefeed();
    var m := MultiPieces(s, BlockDelimiters);
    assert m.0 == ["a"] + ["", "b"] == ["a", "", "b"];
    assert m.1 == [" "] + [LINEFEED] == [" ", LINEFEED];
  }

  /** The split of "a\nb": two pieces and the line break between them. */
  lemma PiecesKept()
    ensures MultiPieces("a\nb", BlockDelimiters) == (["a", "b"], [LINEFEED])
  {
    var s := "a\nb";
    FindChar(s, ' ', 3);
    FindChar(s, '\n', 1);
    FindChar(s, '\t', 3);
    BlockCut(s, None, Some(1), None);
    assert FirstOfFrom([None, Some(1), None], 0, None) == Some(Hit(1, 1));
    assert NextCut(s, BlockDelimiters) == Some((1, LINEFEED));
    PiecesCut(s, BlockDelimiters, 1, LINEFEED);
    assert s[..1] == "a" && s[2..] == "b";
    PiecesLetter("b");
    var m := MultiPieces(s, BlockDelimiters);
    assert m.0 == ["a"] + ["b"] == ["a", "b"];
    assert m.1 == [LINEFEED] + [] == [LINEFEED];
  }

  /** The empty piece adds no part but keeps its delimiter, so the blank stands where the line break was. */
  lemma LayoutLost()
    ensures Layout(["a", "", "b"], [" ", LINEFEED], 80, 3) == (["a", "b"], [" ", LINEFEED])
  {
    var raw, delims := ["a", "", "b"], [" ", LINEFEED];
    LetterChunks("a");
    LetterChunks("b");
    assert Chunks("", 80) == [];
    assert LinefeedCount("", 80) == 0;
    assert PartDelims(raw, delims, 80, 0) == [" "];
    assert PartDelims(raw, delims, 80, 1) == [LINEFEED];
    assert PartDelims(raw, delims, 80, 2) == [];
    var l1, l2 := Layout(raw, delims, 80, 1), Layout(raw, delims, 80, 2);
    var l3 := Layout(raw, delims, 80, 3);
    assert l1.0 == [] + ["a"] == ["a"] && l1.1 == [] + [" "] == [" "];
    assert l2.0 == ["a"] + [] == ["a"] && l2.1 == [" "] + [LINEFEED] == [" ", LINEFEED];
    assert l3.0 == ["a"] + ["b"] == ["a", "b"] && l3.1 == [" ", LINEFEED] + [] == [" ", LINEFEED];
  }

  /** Two words and the line break between them. */
  lemma LayoutKept()
    ensures Layout(["a", "b"], [LINEFEED], 80, 2) == (["a", "b"], [LINEFEED])
  {
    var raw, delims := ["a", "b"], [LINEFEED];
    LetterChunks("a");
    LetterChunks("b");
    assert PartDelims(raw, delims, 80, 0) == [LINEFEED];
    assert PartDelims(raw, delims, 80, 1) == [];
    var l1, l2 := Layout(raw, delims, 80, 1), Layout(raw, delims, 80, 2);
    assert l1.0 == [] + ["a"] == ["a"] && l1.1 == [] + [LINEFEED] == [LINEFEED];
    assert l2.0 == ["a"] + ["b"] == ["a", "b"] && l2.1 == [LINEFEED] + [] == [LINEFEED];
  }

  /** A one-letter word is one chunk and adds no line break. */
  lemma LetterChunks(w: string)
    requires |w| == 1
    ensures Chunks(w, 80) == [w] && LinefeedCount(w, 80) == 0
  {
  }

  /** "a" then "b", joined by the blank the first loop recorded after "a". */
  lemma PackLost()
    ensures Pack(["a", "b"], [" ", LINEFEED], 80, Left, 0, []) == ["a b"]
  {
    var parts, delims := ["a", "b"], [" ", LINEFEED];
    assert [] + "a" + " " == "a ";
    assert "a " + "b" == "a b";
    assert Pack(parts, delims, 80, Left, 2, []) == [];
    assert Pack(parts, delims, 80, Left, 1, "a ") == ["a b"];
  }

  /** "a" and "b" on lines of their own. */
  lemma PackKept()
    ensures Pack(["a", "b"], [LINEFEED], 80, Left, 0, []) == ["a", "b"]
  {
    var parts, delims := ["a", "b"], [LINEFEED];
    assert [] + "a" == "a" && [] + "b" == "b";
    assert Pack(parts, delims, 80, Left, 2, "b") == ["b"];
    assert Pack(parts, delims, 80, Left, 1, []) == ["b"];
  }

  /** One cut of the multi-delimiter split. */
  lemma PiecesCut(s: string, delims: seq<string>, p: nat, d: string)
    requires NonEmptyAll(delims) && NextCut(s, delims) == Some((p, d))
    ensures p + |d| <= |s|
    ensures MultiPieces(s, delims) == ([s[..p]] + MultiPieces(s[p + |d|..], delims).0, [d] + MultiPieces(s[p + |d|..], delims).1)
  {
  }

  /** `to_block`; a width of 0 never terminates in the source. */
  method ToBlock(str: string, width: nat, align: TextAlign) returns (block: seq<string>)
    requires width > 0
    ensures block == Block(str, width, align)
  {
    var rawDelimiterList: seq<string>;
    var rawParts: seq<string>;
    rawParts, rawDelimiterList := SplitMulti(str, BlockDelimiters, []);
    assert rawDelimiterList == MultiPieces(str, BlockDelimiters).1;
    var parts, delimiterList := CutParts(rawParts, rawDelimiterList, width);
    LayoutFits(rawParts, rawDelimiterList, width, |rawParts|);
    block := PackParts(parts, delimiterList, width, align);
  }

  /** The first loop of `to_block`: long words are cut into chunks joined by LINEFEED. */
  method CutParts(rawParts: seq<string>, rawDelimiterList: seq<string>, width: nat)
    returns (parts: seq<string>, delimiterList: seq<string>)
    requires width > 0
    ensures (parts, delimiterList) == Layout(rawParts, rawDelimiterList, width, |rawParts|)
  {
    parts, delimiterList := [], [];
    for i := 0 to |rawParts|
      invariant parts == Layout(rawParts, rawDelimiterList, width, i).0
      invariant delimiterList == Layout(rawParts, rawDelimiterList, width, i).1
    {
      LayoutNext(rawParts, rawDelimiterList, width, i);
      ghost var delims0 := delimiterList;
      parts, delimiterList := CutWord(parts, delimiterList, rawParts[i], width);
      if i < |rawDelimiterList| {
        AppendAssoc(delims0, Linefeeds(LinefeedCount(rawParts[i], width)), [rawDelimiterList[i]]);
        delimiterList := delimiterList + [rawDelimiterList[i]];
      }
    }
  }

  /** How many LINEFEED delimiters the first loop of `to_block` records inside one word. */
  function LinefeedCount(part: string, width: nat): nat
    requires width > 0
  {
    if Chunks(part, width) == [] then 0 else |Chunks(part, width)| - 1
  }

  /** The inner loop of the first loop of `to_block`: one word, cut into chunks. */
  method CutWord(parts: seq<string>, delimiterList: seq<string>, word: string, width: nat)
    returns (parts': seq<string>, delimiterList': seq<string>)
    requires width > 0
    ensures parts' == parts + Chunks(word, width)
    ensures delimiterList' == delimiterList + Linefeeds(LinefeedCount(word, width))
  {
    parts', delimiterList' := parts, delimiterList;
    var part := word;
    ghost var done: seq<string> := [];
    while |part| > width
      invariant Chunks(word, width) == done + Chunks(part, width)
      invariant parts' == parts + done
      invariant delimiterList' == delimiterList + Linefeeds(|done|)
      invariant done != [] ==> part != []
      decreases |part|
    {
      assert Chunks(part, width) == [part[..width]] + Chunks(part[width..], width);
      AppendAssoc(done, [part[..width]], Chunks(part[width..], width));
      AppendAssoc(parts, done, [part[..width]]);
      parts' := parts' + [part[..width]];
      done := done + [part[..width]];
      part := part[width..];
      if part != [] {
        delimiterList' := delimiterList' + [LINEFEED];
      }
      assert Linefeeds(|done|) == Linefeeds(|done| - 1) + [LINEFEED];
      AppendAssoc(delimiterList, Linefeeds(|done| - 1), [LINEFEED]);
    }
    assert Chunks(part, width) == if part == [] then [] else [part];
    assert Linefeeds(|done|) == Linefeeds(LinefeedCount(word, width));
    if part != [] {
      AppendAssoc(parts, done, [part]);
      parts' := parts' + [part];
    }
  }

  /** The second loop of `to_block`: the parts are packed greedily into aligned lines. */
  method PackParts(parts: seq<string>, delimiterList: seq<string>, width: nat, align: TextAlign)
    returns (block: seq<string>)
    requires Fits(parts, width)
    ensures block == Pack(parts, delimiterList, width, align, 0, [])
  {
    block := [];
    var currentLine: string := [];
    var i := 0;
    while i < |parts|
      invariant i <= |parts|
      invariant block + Pack(parts, delimiterList, width, align, i, currentLine)
                == Pack(parts, delimiterList, width, align, 0, [])
      decreases |parts| - i, |currentLine|
    {
      ghost var before := Pack(parts, delimiterList, width, align, i, currentLine);
      var newLine := false;
      if |currentLine| + |parts[i]| <= width {
        currentLine := currentLine + parts[i];
        if i < |delimiterList| {
          if delimiterList[i] == LINEFEED {
            newLine := true;
          } else if |currentLine| + |delimiterList[i]| <= width {
            currentLine := currentLine + delimiterList[i];
          } else {
            newLine := true;
          }
        }
        i := i + 1;
      } else {
        // the source steps i back so that the loop retries this part on a fresh line
        newLine := true;
      }
      if newLine {
        ghost var rest := Pack(parts, delimiterList, width, align, i, []);
        assert before == [AlignText(currentLine, width, align, false)] + rest;
        AppendAssoc(block, [AlignText(currentLine, width, align, false)], rest);
        block := block + [AlignText(currentLine, width, align, false)];
        currentLine := [];
      } else {
        assert before == Pack(parts, delimiterList, width, align, i, currentLine);
      }
    }
    if currentLine != [] {
      block := block + [AlignText(currentLine, width, align, false)];
    }
  }
}
