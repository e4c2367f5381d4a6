/**
 * The six field patterns of the parser, each as a dedicated scanner that
 * tries the pattern at one start index, and `re.search`, which returns the
 * match at the leftmost start index where the scanner succeeds.
 */
module Fields {
  import opened Text

  /**
   * One field of a record. `Missing` is what the parser stores when the
   * pattern has no match: the one-character string `' '`. `Found(g)` is what
   * it stores otherwise: the one-element tuple `(g,)` returned by
   * `.groups()`, `g` being the text of the capture group.
   */
  datatype Field = Missing | Found(group: string)

  datatype Pattern =
    | MessageIdPattern  // (?:Message-ID:) (<.+>)
    | DatePattern       // (?:Date:) (.*)
    | SubjectPattern    // (?:Subject:)(.*)
    | SenderPattern     // From: (\w*.\w*.\w*.com)
    | ReceiverPattern   // To: (\w*.\w*@\w*.com)
    | BodyPattern       // FileName((?:.*?\n?)*)\n

  /** Where the capture group lies: `s[start..end]`. */
  datatype Span = Span(start: nat, end: nat)

  /** The literal text in front of each capture group. */
  function Prefix(pat: Pattern): string {
    match pat
    case MessageIdPattern => "Message-ID: "
    case DatePattern => "Date: "
    case SubjectPattern => "Subject:"
    case SenderPattern => "From: "
    case ReceiverPattern => "To: "
    case BodyPattern => "FileName"
  }

  // ---------------------------------------------------------------------
  // Date and Subject: the rest of the line after the prefix.
  // ---------------------------------------------------------------------

  /** `g` is the text of `s` from `i` up to (not including) the next newline or the end. */
  predicate IsRestOfLine(s: string, i: nat, g: string) {
    i + |g| <= |s| && s[i..i + |g|] == g && '\n' !in g && (i + |g| == |s| || s[i + |g|] == '\n')
  }

  /** `prefix(.*)` tried at `p`: the greedy `.*` runs to the end of the line. */
  function RestOfLineAt(s: string, p: nat, prefix: string): (r: Option<Span>)
    requires p <= |s|
    ensures r.Some? <==> OccursAt(s, prefix, p)
    ensures r.Some? ==> r.value.start == p + |prefix| <= r.value.end <= |s|
    ensures r.Some? ==> IsRestOfLine(s, r.value.start, s[r.value.start..r.value.end])
  {
    if OccursAt(s, prefix, p) then Some(Span(p + |prefix|, LineEnd(s, p + |prefix|))) else None
  }

  // ---------------------------------------------------------------------
  // Message-ID: `<`, then the greedy `.+`, then `>`.
  // ---------------------------------------------------------------------

  /**
   * The Message-ID pattern can match at `p` with its closing `>` at `j`:
   * the prefix and `<` at `p`, then at least one character before the `>`,
   * all on the same line (`.` does not match a newline).
   */
  predicate IdCloses(s: string, p: nat, j: nat) {
    var q := p + |Prefix(MessageIdPattern)|;
    OccursAt(s, Prefix(MessageIdPattern), p) && q < |s| && s[q] == '<' &&
    q + 2 <= j < LineEnd(s, q + 1) && s[j] == '>'
  }

  /** `(?:Message-ID:) (<.+>)` tried at `p`: `.+` backs off from the end of the line to the last `>`. */
  function MessageIdAt(s: string, p: nat): (r: Option<Span>)
    requires p <= |s|
    ensures r.Some? ==> OccursAt(s, Prefix(MessageIdPattern), p)
    ensures r.Some? ==> r.value.start == p + |Prefix(MessageIdPattern)| < r.value.end <= |s|
    ensures r.Some? ==> s[r.value.start] == '<' && s[r.value.end - 1] == '>'
  {
    var q := p + |Prefix(MessageIdPattern)|;
    if OccursAt(s, Prefix(MessageIdPattern), p) && q < |s| && s[q] == '<' then
      var e := LineEnd(s, q + 1);
      if e < q + 2 then None
      else
        match LastIndexOf(s, '>', q + 2, e)
        case None => None
        case Some(j) => Some(Span(q, j + 1))
    else None
  }

  /** The scanner finds a match at `p` exactly when the pattern can close, and closes at the last possible `>`. */
  lemma {:induction false} MessageIdAtGreedy(s: string, p: nat)
    requires p <= |s|
    ensures MessageIdAt(s, p).None? <==> forall j: nat :: !IdCloses(s, p, j)
    ensures MessageIdAt(s, p).Some? ==>
      var m := MessageIdAt(s, p).value;
      m.start == p + |Prefix(MessageIdPattern)| && m.end >= 1 && IdCloses(s, p, m.end - 1) &&
      forall j: nat :: IdCloses(s, p, j) ==> j <= m.end - 1
  {
    var q := p + |Prefix(MessageIdPattern)|;
    if OccursAt(s, Prefix(MessageIdPattern), p) && q < |s| && s[q] == '<' {
      var e := LineEnd(s, q + 1);
      if e >= q + 2 {
        var r := LastIndexOf(s, '>', q + 2, e);
        assert r.Some? ==> IdCloses(s, p, r.value);
      }
    }
  }

  // ---------------------------------------------------------------------
  // Sender and receiver: runs of word characters and separators, then `com`.
  // ---------------------------------------------------------------------

  /** The character that follows a `\w*` run: `.` (anything but a newline) or a literal `@`. */
  datatype Separator = AnyButNewline | AtSign

  predicate SeparatorMatches(sep: Separator, c: char) {
    match sep
    case AnyButNewline => c != '\n'
    case AtSign => c == '@'
  }

  const DOMAIN_SUFFIX: string := "com"

  /** `\w*.\w*.\w*.com` */
  const SENDER_SEPARATORS: seq<Separator> := [AnyButNewline, AnyButNewline, AnyButNewline]

  /** `\w*.\w*@\w*.com` */
  const RECEIVER_SEPARATORS: seq<Separator> := [AnyButNewline, AtSign, AnyButNewline]

  function Separators(pat: Pattern): seq<Separator>
    requires pat == SenderPattern || pat == ReceiverPattern
  {
    if pat == SenderPattern then SENDER_SEPARATORS else RECEIVER_SEPARATORS
  }

  /**
   * `t` matches `\w* sep[0] \w* sep[1] ... com` in full: the reference
   * meaning of the address patterns, independent of search order.
   */
  ghost predicate AddressShape(t: string, seps: seq<Separator>)
    decreases |seps|, 1
  {
    if seps == [] then t == DOMAIN_SUFFIX else exists a: nat :: ShapeStep(t, seps, a)
  }

  /** `t` splits as `a` word characters, a character matching `seps[0]`, and an address for `seps[1..]`. */
  ghost predicate ShapeStep(t: string, seps: seq<Separator>, a: nat)
    requires seps != []
    decreases |seps|, 0
  {
    a < |t| && AllWordChars(t[..a]) && SeparatorMatches(seps[0], t[a]) && AddressShape(t[a + 1..], seps[1..])
  }

  /**
   * Matches `\w* sep ... com` from `i` the way the backtracking engine does:
   * each `\w*` first takes its longest run and gives back one character at a
   * time. Returns the end of the first match found in that order.
   */
  function AddressEnd(s: string, i: nat, seps: seq<Separator>): (r: Option<nat>)
    requires i <= |s|
    ensures r.Some? ==> i <= r.value <= |s|
    decreases |seps|, |s| - i + 1
  {
    if seps == [] then
      if OccursAt(s, DOMAIN_SUFFIX, i) then Some(i + |DOMAIN_SUFFIX|) else None
    else TryWordRuns(s, i, WordRun(s, i), seps)
  }

  /** Tries the first `\w*` with `a`, `a - 1`, ..., `0` characters, in that order. */
  function TryWordRuns(s: string, i: nat, a: nat, seps: seq<Separator>): (r: Option<nat>)
    requires |seps| > 0 && i + a <= |s|
    ensures r.Some? ==> i <= r.value <= |s|
    decreases |seps|, a
  {
    var k := i + a;
    var attempt := if k < |s| && SeparatorMatches(seps[0], s[k]) then AddressEnd(s, k + 1, seps[1..]) else None;
    if attempt.Some? then attempt
    else if a == 0 then None
    else TryWordRuns(s, i, a - 1, seps)
  }

  lemma {:induction false} AddressEndSound(s: string, i: nat, seps: seq<Separator>)
    requires i <= |s|
    ensures AddressEnd(s, i, seps).Some? ==> AddressShape(s[i..AddressEnd(s, i, seps).value], seps)
    decreases |seps|, |s| - i + 1
  {
    if seps != [] {
      TryWordRunsSound(s, i, WordRun(s, i), seps);
    }
  }

  lemma {:induction false} TryWordRunsSound(s: string, i: nat, a: nat, seps: seq<Separator>)
    requires |seps| > 0 && i + a <= |s|
    requires AllWordChars(s[i..i + a])
    ensures TryWordRuns(s, i, a, seps).Some? ==> AddressShape(s[i..TryWordRuns(s, i, a, seps).value], seps)
    decreases |seps|, a
  {
    var k := i + a;
    if k < |s| && SeparatorMatches(seps[0], s[k]) && AddressEnd(s, k + 1, seps[1..]).Some? {
      var e := AddressEnd(s, k + 1, seps[1..]).value;
      AddressEndSound(s, k + 1, seps[1..]);
      ShapeCons(s, i, a, e, seps);
    } else if a > 0 {
      WordCharsShorter(s, i, a);
      TryWordRunsSound(s, i, a - 1, seps);
    }
  }

  /** Word characters, a separator and an address for the remaining separators make an address. */
  lemma ShapeCons(s: string, i: nat, a: nat, e: nat, seps: seq<Separator>)
    requires seps != [] && i + a < e <= |s|
    requires AllWordChars(s[i..i + a]) && SeparatorMatches(seps[0], s[i + a])
    requires AddressShape(s[i + a + 1..e], seps[1..])
    ensures AddressShape(s[i..e], seps)
  {
    var t := s[i..e];
    SliceOfSlice(s, i, e, 0, a);
    SliceOfSlice(s, i, e, a + 1, e - i);
    assert t[..a] == t[0..a];
    assert t[a + 1..] == t[a + 1..e - i];
    assert t[a] == s[i + a];
    assert ShapeStep(t, seps, a);
  }

  /** Whenever some end makes the text from `i` an address, the scanner finds a match. */
  lemma {:induction false} AddressEndComplete(s: string, i: nat, e: nat, seps: seq<Separator>)
    requires i <= e <= |s|
    requires AddressShape(s[i..e], seps)
    ensures AddressEnd(s, i, seps).Some?
    decreases |seps|
  {
    var t := s[i..e];
    if seps == [] {
      assert s[i..i + |DOMAIN_SUFFIX|] == t;
    } else {
      var a: nat :| ShapeStep(t, seps, a);
      var n := WordRun(s, i);
      assert t[..a] == s[i..i + a];
      WordRunCovers(s, i, a);
      assert t[a] == s[i + a];
      assert t[a + 1..] == s[i + a + 1..e];
      AddressEndComplete(s, i + a + 1, e, seps[1..]);
      TryWordRunsReach(s, i, n, a, seps);
    }
  }

  /** Backing off from `n` characters reaches the run length `a` that works. */
  lemma {:induction false} TryWordRunsReach(s: string, i: nat, n: nat, a: nat, seps: seq<Separator>)
    requires |seps| > 0 && a <= n && i + n <= |s| && i + a < |s|
    requires SeparatorMatches(seps[0], s[i + a]) && AddressEnd(s, i + a + 1, seps[1..]).Some?
    ensures TryWordRuns(s, i, n, seps).Some?
    decreases n
  {
    if n > a {
      TryWordRunsReach(s, i, n - 1, a, seps);
    }
  }

  /** What every address capture looks like: no newline, ends in `com`, has `@` when a separator demands one. */
  predicate AddressFacts(t: string, seps: seq<Separator>) {
    |t| >= |seps| + |DOMAIN_SUFFIX| && t[|t| - |DOMAIN_SUFFIX|..] == DOMAIN_SUFFIX &&
    '\n' !in t && (AtSign in seps ==> '@' in t)
  }

  /** Every text of the address shape has those facts. */
  lemma {:induction false} AddressShapeFacts(t: string, seps: seq<Separator>)
    requires AddressShape(t, seps)
    ensures AddressFacts(t, seps)
    decreases |seps|
  {
    if seps != [] {
      var a: nat :| ShapeStep(t, seps, a);
      var rest := t[a + 1..];
      AddressShapeFacts(rest, seps[1..]);
      assert t[|t| - |DOMAIN_SUFFIX|..] == rest[|rest| - |DOMAIN_SUFFIX|..];
      forall k | 0 <= k < |t| ensures t[k] != '\n' {
        if k < a {
          assert t[..a][k] == t[k];
        } else if k > a {
          assert rest[k - a - 1] == t[k];
        }
      }
      if AtSign in seps {
        if seps[0] == AtSign {
          assert t[a] == '@';
        } else {
          assert AtSign in seps[1..];
          var k :| 0 <= k < |rest| && rest[k] == '@';
          assert t[a + 1 + k] == '@';
        }
      }
    }
  }

  // ---------------------------------------------------------------------
  // Which end the engine prefers when several ends have the address shape.
  // ---------------------------------------------------------------------

  /** Some end makes the text from `k` an address for `seps`. */
  ghost predicate CanFinish(s: string, k: nat, seps: seq<Separator>) {
    exists e: nat :: k <= e <= |s| && AddressShape(s[k..e], seps)
  }

  /** The character at `k` exists and matches `sep`. */
  predicate SeparatorAt(s: string, k: nat, sep: Separator) {
    k < |s| && SeparatorMatches(sep, s[k])
  }

  /** The first separator can sit at `k` with the rest of the address after it. */
  ghost predicate CanContinue(s: string, k: nat, seps: seq<Separator>)
    requires seps != []
  {
    SeparatorAt(s, k, seps[0]) && CanFinish(s, k + 1, seps[1..])
  }

  /**
   * `e` is the end the backtracking order picks from `i`: the first `\w*`
   * keeps the longest run after which a separator and the rest of the
   * address can still follow, and the rest is matched the same way.
   */
  ghost predicate PreferredEnd(s: string, i: nat, seps: seq<Separator>, e: nat)
    requires i <= |s|
    decreases |seps|, 1
  {
    if seps == [] then OccursAt(s, DOMAIN_SUFFIX, i) && e == i + |DOMAIN_SUFFIX|
    else exists b: nat :: PreferredStep(s, i, seps, e, b)
  }

  /** The first run takes `b` characters, and no longer run lets the address continue. */
  ghost predicate PreferredStep(s: string, i: nat, seps: seq<Separator>, e: nat, b: nat)
    requires i <= |s| && seps != []
    decreases |seps|, 0
  {
    b <= WordRun(s, i) && SeparatorAt(s, i + b, seps[0]) && PreferredEnd(s, i + b + 1, seps[1..], e) &&
    forall k: nat :: i + b < k <= i + WordRun(s, i) ==> !CanContinue(s, k, seps)
  }

  /** The scanner succeeds from `k` exactly when some end makes the text an address. */
  lemma {:induction false} FinishExact(s: string, k: nat, seps: seq<Separator>)
    requires k <= |s|
    ensures AddressEnd(s, k, seps).Some? <==> CanFinish(s, k, seps)
  {
    AddressEndSound(s, k, seps);
    if CanFinish(s, k, seps) {
      var e: nat :| k <= e <= |s| && AddressShape(s[k..e], seps);
      AddressEndComplete(s, k, e, seps);
    }
  }

  /** The scanner finds the first separator at `k` and the rest of the address after it. */
  predicate Continues(s: string, k: nat, seps: seq<Separator>)
    requires seps != []
  {
    SeparatorAt(s, k, seps[0]) && AddressEnd(s, k + 1, seps[1..]).Some?
  }

  /** The backing-off loop stops at the longest run, up to `a`, after which the rest of the address matches. */
  lemma {:induction false} TryWordRunsStop(s: string, i: nat, a: nat, seps: seq<Separator>) returns (b: nat)
    requires |seps| > 0 && i + a <= |s| && TryWordRuns(s, i, a, seps).Some?
    ensures b <= a && Continues(s, i + b, seps)
    ensures AddressEnd(s, i + b + 1, seps[1..]) == TryWordRuns(s, i, a, seps)
    ensures forall k: nat :: i + b < k <= i + a ==> !Continues(s, k, seps)
    decreases a
  {
    if Continues(s, i + a, seps) {
      b := a;
    } else {
      assert TryWordRuns(s, i, a, seps) == TryWordRuns(s, i, a - 1, seps);
      b := TryWordRunsStop(s, i, a - 1, seps);
    }
  }

  /** The scanner's stopping point is a preferred step, given that the rest of its end is preferred. */
  lemma {:induction false} PreferredStepAt(s: string, i: nat, seps: seq<Separator>, b: nat, e: nat)
    requires i <= |s| && seps != [] && b <= WordRun(s, i) && SeparatorAt(s, i + b, seps[0])
    requires PreferredEnd(s, i + b + 1, seps[1..], e)
    requires forall k: nat :: i + b < k <= i + WordRun(s, i) ==> !Continues(s, k, seps)
    ensures PreferredStep(s, i, seps, e, b)
  {
    forall k: nat | i + b < k <= i + WordRun(s, i) ensures !CanContinue(s, k, seps) {
      assert !Continues(s, k, seps);
      if k < |s| {
        FinishExact(s, k + 1, seps[1..]);
      }
    }
  }

  /** The scanner returns the end the backtracking order picks. */
  lemma {:induction false} AddressEndPreferred(s: string, i: nat, seps: seq<Separator>)
    requires i <= |s|
    ensures AddressEnd(s, i, seps).Some? ==> PreferredEnd(s, i, seps, AddressEnd(s, i, seps).value)
    decreases |seps|
  {
    if seps != [] && AddressEnd(s, i, seps).Some? {
      var b := TryWordRunsStop(s, i, WordRun(s, i), seps);
      var e := AddressEnd(s, i + b + 1, seps[1..]).value;
      AddressEndPreferred(s, i + b + 1, seps[1..]);
      PreferredStepAt(s, i, seps, b, e);
    }
  }

  /** The preferred end makes the text an address. */
  lemma {:induction false} PreferredFinishes(s: string, i: nat, seps: seq<Separator>, e: nat)
    requires i <= |s| && PreferredEnd(s, i, seps, e)
    ensures i <= e <= |s| && AddressShape(s[i..e], seps)
    decreases |seps|
  {
    if seps != [] {
      var b: nat :| PreferredStep(s, i, seps, e, b);
      PreferredFinishes(s, i + b + 1, seps[1..], e);
      WordRunPrefix(s, i, b);
      ShapeCons(s, i, b, e, seps);
    }
  }

  /** At most one end is preferred: the address the engine takes is determined. */
  lemma {:induction false} PreferredEndUnique(s: string, i: nat, seps: seq<Separator>, e1: nat, e2: nat)
    requires i <= |s| && PreferredEnd(s, i, seps, e1) && PreferredEnd(s, i, seps, e2)
    ensures e1 == e2
    decreases |seps|
  {
    if seps != [] {
      var b1: nat :| PreferredStep(s, i, seps, e1, b1);
      var b2: nat :| PreferredStep(s, i, seps, e2, b2);
      PreferredFinishes(s, i + b1 + 1, seps[1..], e1);
      PreferredFinishes(s, i + b2 + 1, seps[1..], e2);
      assert CanContinue(s, i + b1, seps);
      assert CanContinue(s, i + b2, seps);
      assert b1 == b2;
      PreferredEndUnique(s, i + b1 + 1, seps[1..], e1, e2);
    }
  }

  /** `prefix(\w*...com)` tried at `p`. */
  function AddressAt(s: string, p: nat, pat: Pattern): (r: Option<Span>)
    requires p <= |s|
    requires pat == SenderPattern || pat == ReceiverPattern
    ensures r.Some? ==> OccursAt(s, Prefix(pat), p)
    ensures r.Some? ==> r.value.start == p + |Prefix(pat)| <= r.value.end <= |s|
  {
    var q := p + |Prefix(pat)|;
    if OccursAt(s, Prefix(pat), p) then
      match AddressEnd(s, q, Separators(pat))
      case None => None
      case Some(e) => Some(Span(q, e))
    else None
  }

  /** The address pattern can match at `p` with its capture ending at `e`. */
  ghost predicate AddressMatches(s: string, p: nat, pat: Pattern, e: nat)
    requires pat == SenderPattern || pat == ReceiverPattern
  {
    var q := p + |Prefix(pat)|;
    OccursAt(s, Prefix(pat), p) && q <= e <= |s| && AddressShape(s[q..e], Separators(pat))
  }

  /**
   * The address pattern matches at `p` and at no earlier start index, and
   * `e` is the end of the capture that the backtracking order picks there.
   */
  ghost predicate LeftmostAddress(s: string, pat: Pattern, p: nat, e: nat)
    requires pat == SenderPattern || pat == ReceiverPattern
  {
    AddressMatches(s, p, pat, e) && PreferredEnd(s, p + |Prefix(pat)|, Separators(pat), e) &&
    NoAddressBefore(s, pat, p)
  }

  /** No start index before `p` lets the address pattern match. */
  ghost predicate NoAddressBefore(s: string, pat: Pattern, p: nat)
    requires pat == SenderPattern || pat == ReceiverPattern
  {
    forall p': nat, e: nat :: p' < p ==> !AddressMatches(s, p', pat, e)
  }

  // ---------------------------------------------------------------------
  // Body: after `FileName`, up to the last newline.
  // ---------------------------------------------------------------------

  /**
   * `FileName((?:.*?\n?)*)\n` tried at `p`: the outer repetition can take
   * any text, so the capture runs to the last newline of the text and that
   * newline is the closing `\n`.
   */
  function BodyAt(s: string, p: nat): (r: Option<Span>)
    requires p <= |s|
    ensures r.Some? ==> r.value.start == p + |Prefix(BodyPattern)| <= r.value.end < |s|
    ensures r.Some? ==> s[r.value.end] == '\n' && forall k :: r.value.end < k < |s| ==> s[k] != '\n'
    ensures r.None? <==> !OccursAt(s, Prefix(BodyPattern), p) || '\n' !in s[p + |Prefix(BodyPattern)|..]
  {
    var q := p + |Prefix(BodyPattern)|;
    if OccursAt(s, Prefix(BodyPattern), p) then
      match LastIndexOf(s, '\n', q, |s|)
      case None => None
      case Some(l) => Some(Span(q, l))
    else None
  }

  // ---------------------------------------------------------------------
  // re.search and the value stored in the record.
  // ---------------------------------------------------------------------

  /** The pattern tried at start index `p`. */
  function MatchAt(pat: Pattern, s: string, p: nat): (r: Option<Span>)
    requires p <= |s|
    ensures r.Some? ==> OccursAt(s, Prefix(pat), p)
    ensures r.Some? ==> r.value.start == p + |Prefix(pat)| <= r.value.end <= |s|
  {
    match pat
    case MessageIdPattern => MessageIdAt(s, p)
    case DatePattern => RestOfLineAt(s, p, Prefix(pat))
    case SubjectPattern => RestOfLineAt(s, p, Prefix(pat))
    case SenderPattern => AddressAt(s, p, pat)
    case ReceiverPattern => AddressAt(s, p, pat)
    case BodyPattern => BodyAt(s, p)
  }

  /** `re.search`: the leftmost start index at or after `from` where the pattern matches. */
  function Search(pat: Pattern, s: string, from: nat): (r: Option<nat>)
    requires from <= |s|
    ensures r.Some? ==> from <= r.value <= |s| && MatchAt(pat, s, r.value).Some?
    ensures r.Some? ==> forall j: nat :: from <= j < r.value ==> MatchAt(pat, s, j).None?
    ensures r.None? ==> forall j: nat :: from <= j <= |s| ==> MatchAt(pat, s, j).None?
    decreases |s| - from
  {
    if MatchAt(pat, s, from).Some? then Some(from)
    else if from == |s| then None
    else Search(pat, s, from + 1)
  }

  /** A match at `p` with none between `from` and `p` is what the search returns. */
  lemma {:induction false} SearchUnique(pat: Pattern, s: string, from: nat, p: nat)
    requires from <= p <= |s| && MatchAt(pat, s, p).Some?
    requires forall j: nat :: from <= j < p ==> MatchAt(pat, s, j).None?
    ensures Search(pat, s, from) == Some(p)
    decreases p - from
  {
    if from < p {
      assert MatchAt(pat, s, from).None?;
      assert Search(pat, s, from) == Search(pat, s, from + 1);
      SearchUnique(pat, s, from + 1, p);
    }
  }

  /**
   * What a stored field means: the placeholder exactly when the pattern
   * matches nowhere, and otherwise the capture of the leftmost match.
   */
  ghost predicate LeftmostCapture(pat: Pattern, s: string, f: Field) {
    && (f.Missing? <==> forall p: nat :: p <= |s| ==> MatchAt(pat, s, p).None?)
    && (f.Found? ==>
          exists p: nat :: p <= |s| && MatchAt(pat, s, p).Some? &&
            (forall j: nat :: j < p ==> MatchAt(pat, s, j).None?) &&
            f.group == s[MatchAt(pat, s, p).value.start..MatchAt(pat, s, p).value.end])
  }

  /** A field drawn from `s`: the placeholder, or a contiguous slice of `s`. */
  predicate SliceOf(s: string, f: Field) {
    f.Found? ==> exists i: nat, j: nat :: i <= j <= |s| && f.group == s[i..j]
  }

  /**
   * One field extraction: the capture of the leftmost match, or the
   * placeholder; which capture is stated by `ExtractLeftmost`.
   */
  function Extract(pat: Pattern, s: string): (f: Field)
    ensures SliceOf(s, f)
  {
    match Search(pat, s, 0)
    case None => Missing
    case Some(p) =>
      var m := MatchAt(pat, s, p).value;
      Found(s[m.start..m.end])
  }

  /** The extraction at a known leftmost match start. */
  lemma ExtractAt(pat: Pattern, s: string, p: nat)
    requires Search(pat, s, 0) == Some(p)
    ensures p <= |s| && MatchAt(pat, s, p).Some?
    ensures Extract(pat, s) == Found(s[MatchAt(pat, s, p).value.start..MatchAt(pat, s, p).value.end])
  {
  }

  /** No match anywhere gives the placeholder; otherwise the capture of the leftmost match. */
  lemma ExtractLeftmost(pat: Pattern, s: string)
    ensures LeftmostCapture(pat, s, Extract(pat, s))
  {
    match Search(pat, s, 0)
    case None =>
    case Some(p) =>
  }

  // ---------------------------------------------------------------------
  // What each field is.
  // ---------------------------------------------------------------------

  /**
   * Date and Subject: the placeholder exactly when the prefix does not occur;
   * otherwise the rest of the line after the first occurrence of the prefix,
   * which holds no newline.
   */
  lemma {:induction false} RestOfLineField(pat: Pattern, s: string)
    requires pat == DatePattern || pat == SubjectPattern
    ensures Extract(pat, s).Missing? <==> !Contains(s, Prefix(pat))
    ensures Extract(pat, s).Found? ==>
      exists p: nat :: IsFirstOccurrence(s, Prefix(pat), p) && IsRestOfLine(s, p + |Prefix(pat)|, Extract(pat, s).group)
  {
    match Search(pat, s, 0)
    case None =>
      forall i: nat | i <= |s| ensures !OccursAt(s, Prefix(pat), i) {
        assert MatchAt(pat, s, i).None?;
      }
    case Some(p) =>
      RestOfLineFirst(pat, s, p);
  }

  /** The capture at the leftmost scanner match is the rest of the line after the first prefix. */
  lemma {:induction false} RestOfLineFirst(pat: Pattern, s: string, p: nat)
    requires pat == DatePattern || pat == SubjectPattern
    requires Search(pat, s, 0) == Some(p)
    ensures Extract(pat, s).Found? && IsFirstOccurrence(s, Prefix(pat), p)
    ensures IsRestOfLine(s, p + |Prefix(pat)|, Extract(pat, s).group)
  {
    ExtractAt(pat, s, p);
    assert MatchAt(pat, s, p) == RestOfLineAt(s, p, Prefix(pat));
    forall j: nat | j < p ensures !OccursAt(s, Prefix(pat), j) {
      assert MatchAt(pat, s, j).None?;
    }
  }

  /**
   * `j` closes the leftmost Message-ID match, at the start index `p`, and is
   * the last `>` the greedy `.+` can reach.
   */
  ghost predicate IsIdMatch(s: string, p: nat, j: nat) {
    IdCloses(s, p, j) &&
    (forall k: nat :: IdCloses(s, p, k) ==> k <= j) &&
    (forall p': nat, k: nat :: p' < p ==> !IdCloses(s, p', k))
  }

  /** Message-ID is the placeholder exactly when no `Message-ID: <` is closed by a `>` later on its line. */
  lemma {:induction false} MessageIdMissing(s: string)
    ensures Extract(MessageIdPattern, s).Missing? <==> forall p: nat, j: nat :: !IdCloses(s, p, j)
  {
    var pat := MessageIdPattern;
    match Search(pat, s, 0)
    case None =>
      forall p: nat, j: nat ensures !IdCloses(s, p, j) {
        if p <= |s| {
          assert MatchAt(pat, s, p).None?;
          MessageIdAtGreedy(s, p);
        }
      }
    case Some(p) =>
      MessageIdAtGreedy(s, p);
      assert IdCloses(s, p, MessageIdAt(s, p).value.end - 1);
  }

  /** A closing `>` gives a capture of at least three characters in angle brackets, on one line. */
  lemma IdClosesShape(s: string, p: nat, j: nat)
    requires IdCloses(s, p, j)
    ensures var g := s[p + |Prefix(MessageIdPattern)|..j + 1];
      |g| >= 3 && g[0] == '<' && g[|g| - 1] == '>' && '\n' !in g
  {
    var q := p + |Prefix(MessageIdPattern)|;
    var g := s[q..j + 1];
    assert g[0] == s[q] && g[|g| - 1] == s[j];
    forall k | 0 <= k < |g| ensures g[k] != '\n' {
      assert g[k] == s[q + k];
    }
  }

  /** The shape of the Message-ID captured at the leftmost scanner match. */
  lemma {:induction false} MessageIdShapeAt(s: string, p: nat)
    requires Search(MessageIdPattern, s, 0) == Some(p)
    ensures Extract(MessageIdPattern, s).Found?
    ensures var g := Extract(MessageIdPattern, s).group;
      |g| >= 3 && g[0] == '<' && g[|g| - 1] == '>' && '\n' !in g
  {
    ExtractAt(MessageIdPattern, s, p);
    MessageIdAtGreedy(s, p);
    var j := MessageIdAt(s, p).value.end - 1;
    IdClosesShape(s, p, j);
    assert Extract(MessageIdPattern, s).group == s[p + |Prefix(MessageIdPattern)|..j + 1];
  }

  /** The leftmost scanner match closes the leftmost, greedy Message-ID match. */
  lemma {:induction false} IdMatchAt(s: string, p: nat)
    requires Search(MessageIdPattern, s, 0) == Some(p)
    ensures MessageIdAt(s, p).Some? && MessageIdAt(s, p).value.end >= 1
    ensures IsIdMatch(s, p, MessageIdAt(s, p).value.end - 1)
  {
    MessageIdAtGreedy(s, p);
    forall p': nat, k: nat | p' < p ensures !IdCloses(s, p', k) {
      assert MatchAt(MessageIdPattern, s, p').None?;
      MessageIdAtGreedy(s, p');
    }
  }

  /**
   * A found Message-ID is `<...>`: at least three characters, no newline,
   * running from the `<` of the leftmost closable prefix to the last `>`
   * on that line.
   */
  lemma {:induction false} MessageIdField(s: string)
    ensures Extract(MessageIdPattern, s).Found? ==>
      var g := Extract(MessageIdPattern, s).group;
      |g| >= 3 && g[0] == '<' && g[|g| - 1] == '>' && '\n' !in g
    ensures Extract(MessageIdPattern, s).Found? ==>
      exists p: nat, j: nat ::
        IsIdMatch(s, p, j) && Extract(MessageIdPattern, s).group == s[p + |Prefix(MessageIdPattern)|..j + 1]
  {
    if Extract(MessageIdPattern, s).Found? {
      var p := Search(MessageIdPattern, s, 0).value;
      MessageIdShapeAt(s, p);
      IdMatchAt(s, p);
      ExtractAt(MessageIdPattern, s, p);
      MessageIdAtGreedy(s, p);
    }
  }

  /** The address scanner at `p` succeeds exactly when some end makes the pattern match, and its end is one of them. */
  lemma {:induction false} AddressAtExact(s: string, p: nat, pat: Pattern)
    requires p <= |s|
    requires pat == SenderPattern || pat == ReceiverPattern
    ensures MatchAt(pat, s, p).Some? ==> AddressMatches(s, p, pat, MatchAt(pat, s, p).value.end)
    ensures MatchAt(pat, s, p).None? ==> forall e: nat :: !AddressMatches(s, p, pat, e)
  {
    var q := p + |Prefix(pat)|;
    assert MatchAt(pat, s, p) == AddressAt(s, p, pat);
    if OccursAt(s, Prefix(pat), p) {
      AddressEndSound(s, q, Separators(pat));
      forall e: nat | AddressMatches(s, p, pat, e) ensures AddressEnd(s, q, Separators(pat)).Some? {
        AddressEndComplete(s, q, e, Separators(pat));
      }
    }
  }

  /** The capture of the address scanner at `p` ends where the backtracking order picks. */
  lemma {:induction false} AddressAtPreferred(s: string, p: nat, pat: Pattern)
    requires p <= |s|
    requires pat == SenderPattern || pat == ReceiverPattern
    ensures MatchAt(pat, s, p).Some? ==>
      PreferredEnd(s, p + |Prefix(pat)|, Separators(pat), MatchAt(pat, s, p).value.end)
  {
    assert MatchAt(pat, s, p) == AddressAt(s, p, pat);
    if OccursAt(s, Prefix(pat), p) {
      AddressEndPreferred(s, p + |Prefix(pat)|, Separators(pat));
    }
  }

  /** Where the scanner fails at every earlier start index, the pattern cannot match there. */
  lemma {:induction false} NoAddressBeforeScan(pat: Pattern, s: string, p: nat)
    requires pat == SenderPattern || pat == ReceiverPattern
    requires p <= |s|
    requires forall j: nat :: j < p ==> MatchAt(pat, s, j).None?
    ensures NoAddressBefore(s, pat, p)
  {
    forall p': nat, e: nat | p' < p ensures !AddressMatches(s, p', pat, e) {
      AddressAtExact(s, p', pat);
    }
  }

  /** Sender and receiver are the placeholder exactly when no prefix is followed by an address. */
  lemma {:induction false} AddressMissing(pat: Pattern, s: string)
    requires pat == SenderPattern || pat == ReceiverPattern
    ensures Extract(pat, s).Missing? <==> forall p: nat, e: nat :: !AddressMatches(s, p, pat, e)
  {
    var n := |Prefix(pat)|;
    var seps := Separators(pat);
    match Search(pat, s, 0)
    case None =>
      forall p: nat, e: nat ensures !AddressMatches(s, p, pat, e) {
        if p <= |s| {
          AddressAtExact(s, p, pat);
        }
      }
    case Some(p) =>
      AddressAtExact(s, p, pat);
  }

  /**
   * A found sender or receiver has the address shape, ends in `com`, holds
   * no newline, and contains `@` for the receiver.
   */
  lemma {:induction false} AddressField(pat: Pattern, s: string)
    requires pat == SenderPattern || pat == ReceiverPattern
    ensures Extract(pat, s).Found? ==>
      var g := Extract(pat, s).group;
      |g| >= 6 && g[|g| - 3..] == DOMAIN_SUFFIX && '\n' !in g && (pat == ReceiverPattern ==> '@' in g)
  {
    if Extract(pat, s).Found? {
      var seps := Separators(pat);
      assert |seps| == 3;
      assert pat == ReceiverPattern ==> AtSign in seps by {
        assert RECEIVER_SEPARATORS[1] == AtSign;
      }
      AddressFactsAt(pat, s, Search(pat, s, 0).value);
    }
  }

  /** The facts about the address shape, for the capture at the leftmost scanner match. */
  lemma {:induction false} AddressFactsAt(pat: Pattern, s: string, p: nat)
    requires pat == SenderPattern || pat == ReceiverPattern
    requires Search(pat, s, 0) == Some(p)
    ensures Extract(pat, s).Found? && AddressFacts(Extract(pat, s).group, Separators(pat))
  {
    AddressShapeAt(pat, s, p);
    AddressShapeFacts(Extract(pat, s).group, Separators(pat));
  }

  /** The capture at the leftmost scanner match has the address shape. */
  lemma {:induction false} AddressShapeAt(pat: Pattern, s: string, p: nat)
    requires pat == SenderPattern || pat == ReceiverPattern
    requires Search(pat, s, 0) == Some(p)
    ensures Extract(pat, s).Found? && AddressShape(Extract(pat, s).group, Separators(pat))
  {
    ExtractAt(pat, s, p);
    AddressAtExact(s, p, pat);
  }

  /** The capture at the leftmost scanner match is the leftmost address. */
  lemma {:induction false} LeftmostAddressAt(pat: Pattern, s: string, p: nat)
    requires pat == SenderPattern || pat == ReceiverPattern
    requires Search(pat, s, 0) == Some(p)
    ensures MatchAt(pat, s, p).Some?
    ensures LeftmostAddress(s, pat, p, MatchAt(pat, s, p).value.end)
  {
    AddressAtExact(s, p, pat);
    AddressAtPreferred(s, p, pat);
    NoAddressBeforeScan(pat, s, p);
  }

  /**
   * A found sender or receiver is the text right after the leftmost prefix
   * that is followed by an address, up to where that address ends.
   */
  lemma {:induction false} AddressLeftmost(pat: Pattern, s: string)
    requires pat == SenderPattern || pat == ReceiverPattern
    ensures Extract(pat, s).Found? ==>
      exists p: nat, e: nat :: p + |Prefix(pat)| <= e <= |s| && LeftmostAddress(s, pat, p, e) &&
        Extract(pat, s).group == s[p + |Prefix(pat)|..e]
  {
    if Extract(pat, s).Found? {
      var p := Search(pat, s, 0).value;
      ExtractAt(pat, s, p);
      LeftmostAddressAt(pat, s, p);
      AddressAtExact(s, p, pat);
    }
  }

  /**
   * Body: the placeholder exactly when no `FileName` has a newline after it;
   * otherwise the text after the first `FileName` up to, not including, the
   * last newline of the text.
   */
  lemma {:induction false} BodyField(s: string)
    ensures Extract(BodyPattern, s).Missing? <==>
      forall p: nat :: OccursAt(s, Prefix(BodyPattern), p) ==> '\n' !in s[p + |Prefix(BodyPattern)|..]
    ensures Extract(BodyPattern, s).Found? ==>
      exists p: nat, l: nat ::
        IsFirstOccurrence(s, Prefix(BodyPattern), p) &&
        p + |Prefix(BodyPattern)| <= l < |s| && s[l] == '\n' && '\n' !in s[l + 1..] &&
        Extract(BodyPattern, s).group == s[p + |Prefix(BodyPattern)|..l]
  {
    var pat := BodyPattern;
    var n := |Prefix(pat)|;
    forall p: nat | p <= |s| ensures MatchAt(pat, s, p) == BodyAt(s, p) { }
    match Search(pat, s, 0)
    case None =>
      forall p: nat | OccursAt(s, Prefix(pat), p) ensures '\n' !in s[p + n..] {
        assert MatchAt(pat, s, p).None?;
      }
    case Some(p) =>
      var l := BodyAt(s, p).value.end;
      forall j: nat | j < p ensures !OccursAt(s, Prefix(pat), j) {
        assert MatchAt(pat, s, j).None?;
        assert s[j + n..][l - j - n] == s[l];
      }
      var after := s[l + 1..];
      forall k | 0 <= k < |after| ensures after[k] != '\n' {
        assert after[k] == s[l + 1 + k];
      }
      assert IsFirstOccurrence(s, Prefix(pat), p);
  }
}
