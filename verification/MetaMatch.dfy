/** MetaMatch of gnu-efi/lib/str.c: the glob matcher behind the stub Unicode collation interface.

    A pattern denotes a language: `*` any run of characters, `?` any one character, `[..]` one
    character of a set of literals and ranges, anything else itself. The matcher is proved to decide
    that language, to terminate, and to read past the end of the pattern for exactly the patterns
    that can drive it into a set left open.
 */
module MetaMatch {

  import opened Options
  import opened Strings

  const STAR: Char16 := '*' as int
  const QUESTION: Char16 := '?' as int
  const OPEN: Char16 := '[' as int
  const CLOSE: Char16 := ']' as int
  const DASH: Char16 := '-' as int

  /** The matcher's answer, or the fact that it read beyond the pattern's terminator. */
  datatype Outcome = Done(matched: bool) | PastEnd

  // ----- what a pattern denotes -----

  datatype Token = AnyRun | AnyOne | OneOf(body: Text) | Just(c: Char16)

  /** The tokens of a pattern and, when its last `[` is never closed, what follows that `[`. */
  datatype Parsed = Parsed(tokens: seq<Token>, open: Option<Text>)

  /** The position of the first `]`, or the length when there is none. */
  function FirstClose(p: Text): (k: nat)
    ensures k <= |p| && CLOSE !in p[..k] && (k < |p| ==> p[k] == CLOSE)
  {
    if p == [] || p[0] == CLOSE then 0 else 1 + FirstClose(p[1..])
  }

  function Parse(p: Text): Parsed
    decreases |p|
  {
    if p == [] then Parsed([], None)
    else if p[0] == OPEN then
      var k := FirstClose(p[1..]);
      if k == |p| - 1 then Parsed([], Some(p[1..]))
      else Prepend(OneOf(p[1..1 + k]), Parse(p[k + 2..]))
    else
      Prepend(if p[0] == STAR then AnyRun else if p[0] == QUESTION then AnyOne else Just(p[0]), Parse(p[1..]))
  }

  function Prepend(t: Token, rest: Parsed): Parsed {
    Parsed([t] + rest.tokens, rest.open)
  }

  /** The low end of a range whose `-` stands at `k`: the character before it, 0 at the front. */
  function LowEnd(body: Text, k: nat): Char16
    requires k <= |body|
  {
    if k == 0 then 0 else body[k - 1]
  }

  /** `c` is put in the set by position `k`: as a literal, or as part of the range around a `-`.
      The high end of a range belongs to the set even when the range is empty. */
  predicate Admits(body: Text, k: nat, c: Char16)
    requires k < |body|
  {
    if body[k] == DASH
    then k + 1 < |body| && (LowEnd(body, k) <= c <= body[k + 1] || c == body[k + 1])
    else c == body[k]
  }

  predicate InSet(body: Text, c: Char16) {
    exists k :: 0 <= k < |body| && Admits(body, k, c)
  }

  predicate Fits(t: Token, piece: Text) {
    match t
    case AnyRun => true
    case AnyOne => |piece| == 1
    case OneOf(body) => |piece| == 1 && InSet(body, piece[0])
    case Just(c) => piece == [c]
  }

  function Joined(pieces: seq<Text>): Text {
    if pieces == [] then [] else pieces[0] + Joined(pieces[1..])
  }

  ghost predicate Splits(s: Text, tokens: seq<Token>, pieces: seq<Text>) {
    && |pieces| == |tokens|
    && s == Joined(pieces)
    && forall i :: 0 <= i < |tokens| ==> Fits(tokens[i], pieces[i])
  }

  /** The denoted language: the string can be cut into consecutive pieces, one fitting each token. */
  ghost predicate InLanguage(s: Text, tokens: seq<Token>) {
    exists pieces :: Splits(s, tokens, pieces)
  }

  // ----- the search the matcher carries out, leftmost choice first -----

  /** Inside a set left open the scan gives up only at a final `-`; otherwise it runs off the end. */
  predicate RunsOff(body: Text, c: Char16) {
    InSet(body, c) || body == [] || body[|body| - 1] != DASH
  }

  function Search(s: Text, tokens: seq<Token>, open: Option<Text>): Outcome
    decreases |tokens|, |s|
  {
    if tokens == [] then
      match open
      case None => Done(s == [])
      case Some(body) => if s != [] && RunsOff(body, s[0]) then PastEnd else Done(false)
    else if tokens[0].AnyRun? then
      var r := Search(s, tokens[1..], open);
      if r == Done(false) && s != [] then Search(s[1..], tokens, open) else r
    else if s != [] && Fits(tokens[0], s[..1]) then Search(s[1..], tokens[1..], open)
    else Done(false)
  }

  function MatchOutcome(s: Text, p: Text): Outcome {
    Search(s, Parse(p).tokens, Parse(p).open)
  }

  // ----- the matcher -----

  lemma SearchEnd(s: Text)
    ensures MatchOutcome(s, []) == Done(s == [])
  {}

  lemma SearchStar(s: Text, p: Text)
    requires p != [] && p[0] == STAR
    ensures MatchOutcome(s, p) == Search(s, [AnyRun] + Parse(p[1..]).tokens, Parse(p[1..]).open)
  {}

  /** One turn of the `while (*String)` loop of the `*` case. */
  lemma SearchStarStep(s: Text, p: Text)
    ensures var all := Search(s, [AnyRun] + Parse(p).tokens, Parse(p).open);
      if MatchOutcome(s, p) != Done(false) || s == [] then all == MatchOutcome(s, p)
      else all == Search(s[1..], [AnyRun] + Parse(p).tokens, Parse(p).open)
  {
    assert ([AnyRun] + Parse(p).tokens)[1..] == Parse(p).tokens;
  }

  lemma SearchSet(s: Text, p: Text)
    requires p != [] && p[0] == OPEN
    ensures var rest: Text := p[1..];
      var k := FirstClose(rest);
      if s == [] then MatchOutcome(s, p) == Done(false)
      else if k < |rest| then
        MatchOutcome(s, p) == if InSet(rest[..k], s[0]) then MatchOutcome(s[1..], rest[k + 1..]) else Done(false)
      else
        MatchOutcome(s, p) == if RunsOff(rest, s[0]) then PastEnd else Done(false)
  {
    var rest: Text := p[1..];
    var k := FirstClose(rest);
    if k < |rest| {
      assert p[1..1 + k] == rest[..k] && p[k + 2..] == rest[k + 1..];
      assert Parse(p).tokens[1..] == Parse(rest[k + 1..]).tokens;
    }
  }

  /** What the `[` case must answer for the character `c`, the set's first character being p[j]. */
  ghost predicate SetVerdict(p: Text, j: nat, c: Char16, verdict: Outcome, next: nat)
    requires j <= |p|
  {
    var rest: Text := p[j..];
    var k := FirstClose(rest);
    if k < |rest| then verdict == Done(InSet(rest[..k], c)) && (verdict.matched ==> next == j + k + 1)
    else if RunsOff(rest, c) then verdict == PastEnd && next == |p| + 1
    else verdict == Done(false)
  }

  lemma SetStep(s: Text, i: nat, p: Text, j: nat, verdict: Outcome, next: nat)
    requires i < |s| && j < |p| && p[j] == OPEN && SetVerdict(p, j + 1, s[i], verdict, next)
    ensures match verdict
      case Done(false) => MatchOutcome(s[i..], p[j..]) == Done(false)
      case Done(true) => j < next <= |p| && MatchOutcome(s[i..], p[j..]) == MatchOutcome(s[i + 1..], p[next..])
      case PastEnd => next == |p| + 1 && MatchOutcome(s[i..], p[j..]) == PastEnd
  {
    var pat: Text := p[j..];
    assert pat[1..] == p[j + 1..] && s[i..][1..] == s[i + 1..];
    SearchSet(s[i..], pat);
    if verdict == Done(true) {
      assert pat[1..][next - j - 1..] == p[next..];
    }
  }

  lemma SearchPlain(s: Text, p: Text)
    requires p != [] && p[0] != OPEN && p[0] != STAR
    ensures MatchOutcome(s, p) ==
      if s != [] && (p[0] == QUESTION || s[0] == p[0]) then MatchOutcome(s[1..], p[1..]) else Done(false)
  {
    assert Parse(p).tokens[1..] == Parse(p[1..]).tokens;
  }

  /** MetaMatch(String + i, Pattern + j). */
  method MetaMatch(s: Text, i: nat, p: Text, j: nat) returns (r: Outcome)
    requires i <= |s| && j <= |p|
    ensures r == MatchOutcome(s[i..], p[j..])
    decreases |p| - j
  {
    hide Search, Parse, MatchOutcome, InSet, RunsOff, SetVerdict;
    var si: nat, pj: nat := i, j;
    while true
      invariant si <= |s| && j <= pj <= |p| + 1
      invariant pj <= |p| ==> MatchOutcome(s[i..], p[j..]) == MatchOutcome(s[si..], p[pj..])
      invariant pj == |p| + 1 ==> MatchOutcome(s[i..], p[j..]) == PastEnd
      decreases |p| + 1 - pj
    {
      if pj > |p| {
        return PastEnd;
      }
      ghost var str: Text, pat: Text := s[si..], p[pj..];
      assert si < |s| ==> str[0] == s[si] && str[1..] == s[si + 1..];
      assert pj < |p| ==> pat[0] == p[pj] && pat[1..] == p[pj + 1..];
      var ch := At(p, pj);
      pj := pj + 1;
      if ch == 0 {
        SearchEnd(str);
        return Done(At(s, si) == 0);
      } else if ch == STAR {
        SearchStar(str, pat);
        while si < |s|
          invariant si <= |s|
          invariant MatchOutcome(s[i..], p[j..])
            == Search(s[si..], [AnyRun] + Parse(p[pj..]).tokens, Parse(p[pj..]).open)
        {
          SearchStarStep(s[si..], p[pj..]);
          var sub := MetaMatch(s, si, p, pj);
          if sub != Done(false) {
            return sub;
          }
          assert s[si..][1..] == s[si + 1..];
          si := si + 1;
        }
        SearchStarStep(s[si..], p[pj..]);
        r := MetaMatch(s, si, p, pj);
        return;
      } else if ch == QUESTION {
        SearchPlain(str, pat);
        if At(s, si) == 0 {
          return Done(false);
        }
        si := si + 1;
      } else if ch == OPEN {
        var c := At(s, si);
        if c == 0 {
          SearchSet(str, pat);
          return Done(false);
        }
        var verdict, next := MatchSet(p, pj, c);
        SetStep(s, si, p, pj - 1, verdict, next);
        if verdict == Done(false) {
          return verdict;
        }
        si, pj := si + 1, next;
      } else {
        SearchPlain(str, pat);
        if At(s, si) != ch {
          return Done(false);
        }
        si := si + 1;
      }
    }
  }

  /** The `[` case, from the set's first character on. `next` is the pattern pointer after a match. */
  method MatchSet(p: Text, j: nat, c: Char16) returns (verdict: Outcome, next: nat)
    requires j <= |p| && c != 0
    ensures SetVerdict(p, j, c, verdict, next)
  {
    ghost var rest: Text := p[j..];
    ghost var k := FirstClose(rest);
    ghost var body: Text := rest[..k];
    assert k == |rest| ==> body == rest;
    ghost var hit := false;
    var l: Char16, ch: Char16, pj: nat := 0, 0, j;
    while true
      invariant j <= pj <= j + k && pj <= |p|
      invariant !hit && forall m :: 0 <= m < pj - j ==> !Admits(body, m, c)
      invariant pj < |p| && p[pj] == DASH ==> l == LowEnd(rest, pj - j)
      invariant j < pj == |p| ==> p[pj - 1] != DASH
      decreases |p| - pj
    {
      ghost var m := pj - j;
      ch := At(p, pj);
      pj := pj + 1;
      if ch == 0 {
        break;
      }
      assert ch == rest[m];
      if ch == CLOSE {
        return Done(false), pj;
      }
      assert m < k && body[m] == ch;
      if ch == DASH {
        ch := At(p, pj);
        if ch == 0 || ch == CLOSE {
          assert pj - j == k && !Admits(body, m, c);
          return Done(false), pj;
        }
        assert ch == rest[m + 1] == body[m + 1];
        if l <= c <= ch {
          assert Admits(body, m, c);
          hit := true;
          break;
        }
      }
      l := ch;
      if c == ch {
        assert Admits(body, m, c);
        hit := true;
        break;
      }
    }
    assert hit ==> InSet(body, c);
    assert ch == 0 ==> k == |rest| && body == rest && RunsOff(rest, c);
    while ch != 0 && ch != CLOSE
      invariant j <= pj <= |p| + 1
      invariant ch != 0 && ch != CLOSE ==> pj <= j + k && pj <= |p|
      invariant ch == CLOSE ==> k < |rest| && pj == j + k + 1
      invariant ch == 0 ==> k == |rest| && pj == |p| + 1
      decreases |p| + 1 - pj
    {
      assert pj < |p| ==> p[pj] == rest[pj - j];
      ch := At(p, pj);
      pj := pj + 1;
    }
    next := pj;
    verdict := if pj <= |p| then Done(true) else PastEnd;
  }

  // ----- the search decides the language -----

  /** A pattern is closed when every `[` that opens a set has its `]`. */
  predicate Closed(p: Text) {
    Parse(p).open.None?
  }

  /** Cutting off the piece that the first token takes. */
  lemma PeelFirst(s: Text, tokens: seq<Token>, n: nat)
    requires tokens != [] && n <= |s| && Fits(tokens[0], s[..n]) && InLanguage(s[n..], tokens[1..])
    ensures InLanguage(s, tokens)
  {
    var rest :| Splits(s[n..], tokens[1..], rest);
    var pieces: seq<Text> := [s[..n]] + rest;
    assert pieces[1..] == rest;
    assert Splits(s, tokens, pieces);
  }

  lemma FirstPiece(s: Text, tokens: seq<Token>) returns (n: nat)
    requires tokens != [] && InLanguage(s, tokens)
    ensures n <= |s| && Fits(tokens[0], s[..n]) && InLanguage(s[n..], tokens[1..])
  {
    var pieces :| Splits(s, tokens, pieces);
    n := |pieces[0]|;
    assert s[..n] == pieces[0] && s[n..] == Joined(pieces[1..]);
    assert Splits(s[n..], tokens[1..], pieces[1..]);
  }

  lemma {:induction false} SearchDecides(s: Text, tokens: seq<Token>)
    ensures Search(s, tokens, None) == Done(true) <==> InLanguage(s, tokens)
    ensures Search(s, tokens, None).Done?
    decreases |tokens|, |s|
  {
    if tokens == [] {
      var none: seq<Text> := [];
      assert s == [] ==> Splits(s, tokens, none);
    } else if tokens[0].AnyRun? {
      RunDecides(s, tokens);
    } else {
      if s != [] && Fits(tokens[0], s[..1]) {
        SearchDecides(s[1..], tokens[1..]);
        if Search(s, tokens, None) == Done(true) {
          PeelFirst(s, tokens, 1);
        }
      }
      if InLanguage(s, tokens) {
        var n := FirstPiece(s, tokens);
        assert n == 1;
      }
    }
  }

  lemma {:induction false} RunDecides(s: Text, tokens: seq<Token>)
    requires tokens != [] && tokens[0].AnyRun?
    ensures Search(s, tokens, None) == Done(true) <==> InLanguage(s, tokens)
    ensures Search(s, tokens, None).Done?
    decreases |tokens|, |s|, 0
  {
    SearchDecides(s, tokens[1..]);
    if s != [] {
      SearchDecides(s[1..], tokens);
    }
    if Search(s, tokens, None) == Done(true) {
      if Search(s, tokens[1..], None) == Done(true) {
        assert s[0..] == s;
        PeelFirst(s, tokens, 0);
      } else {
        var n := FirstPiece(s[1..], tokens);
        assert s[1..][n..] == s[n + 1..];
        PeelFirst(s, tokens, n + 1);
      }
    }
    if InLanguage(s, tokens) {
      var n := FirstPiece(s, tokens);
      if n == 0 {
        assert s[0..] == s;
      } else {
        assert s[1..][n - 1..] == s[n..];
        PeelFirst(s[1..], tokens, n - 1);
      }
    }
  }

  lemma {:induction false} OpenNeverMatches(s: Text, tokens: seq<Token>, open: Option<Text>)
    requires open.Some?
    ensures Search(s, tokens, open) != Done(true)
    decreases |tokens|, |s|
  {
    if tokens != [] {
      OpenNeverMatches(s, tokens[1..], open);
      if s != [] {
        OpenNeverMatches(s[1..], tokens[1..], open);
        OpenNeverMatches(s[1..], tokens, open);
      }
    }
  }

  /** TRUE exactly for the strings of the pattern's language; an open set matches nothing. */
  lemma MatchesLanguage(s: Text, p: Text)
    ensures MatchOutcome(s, p) == Done(true) <==> Closed(p) && InLanguage(s, Parse(p).tokens)
    ensures Closed(p) ==> MatchOutcome(s, p).Done?
  {
    if Closed(p) {
      SearchDecides(s, Parse(p).tokens);
    } else {
      OpenNeverMatches(s, Parse(p).tokens, Parse(p).open);
    }
  }

  // ----- which patterns can be read past their end -----

  /** The characters in front of position `n` get the matcher to the open set, and the one at `n` makes it
      run off the end of it. */
  ghost predicate RunsOffAt(s: Text, tokens: seq<Token>, body: Text, n: nat) {
    n < |s| && InLanguage(s[..n], tokens) && RunsOff(body, s[n])
  }

  ghost predicate RunsOffSomewhere(s: Text, tokens: seq<Token>, body: Text) {
    exists n: nat :: RunsOffAt(s, tokens, body, n)
  }

  lemma {:induction false} SearchRunsOff(s: Text, tokens: seq<Token>, body: Text)
    ensures Search(s, tokens, Some(body)) == PastEnd <==> RunsOffSomewhere(s, tokens, body)
    decreases |tokens|, |s|
  {
    if tokens == [] {
      var none: seq<Text> := [];
      assert Splits(s[..0], tokens, none);
      assert forall n: nat :: RunsOffAt(s, tokens, body, n) ==> s[..n] == [];
      assert s != [] && RunsOff(body, s[0]) ==> RunsOffAt(s, tokens, body, 0);
    } else if tokens[0].AnyRun? {
      RunRunsOff(s, tokens, body);
    } else {
      if s != [] && Fits(tokens[0], s[..1]) {
        SearchRunsOff(s[1..], tokens[1..], body);
        if n: nat :| RunsOffAt(s[1..], tokens[1..], body, n) {
          var t: Text := s[..n + 1];
          assert t[..1] == s[..1] && t[1..] == s[1..][..n];
          PeelFirst(t, tokens, 1);
          assert RunsOffAt(s, tokens, body, n + 1);
        }
      }
      if n: nat :| RunsOffAt(s, tokens, body, n) {
        var m := FirstPiece(s[..n], tokens);
        assert m == 1 && s[..n][..1] == s[..1] && s[..n][1..] == s[1..][..n - 1];
        assert RunsOffAt(s[1..], tokens[1..], body, n - 1);
      }
    }
  }

  lemma {:induction false} RunRunsOff(s: Text, tokens: seq<Token>, body: Text)
    requires tokens != [] && tokens[0].AnyRun?
    ensures Search(s, tokens, Some(body)) == PastEnd <==> RunsOffSomewhere(s, tokens, body)
    decreases |tokens|, |s|, 0
  {
    OpenNeverMatches(s, tokens[1..], Some(body));
    SearchRunsOff(s, tokens[1..], body);
    if n: nat :| RunsOffAt(s, tokens[1..], body, n) {
      assert s[..n][0..] == s[..n];
      PeelFirst(s[..n], tokens, 0);
      assert RunsOffAt(s, tokens, body, n);
    } else if s != [] {
      SearchRunsOff(s[1..], tokens, body);
      if n: nat :| RunsOffAt(s[1..], tokens, body, n) {
        var m := FirstPiece(s[1..][..n], tokens);
        assert s[..n + 1][m + 1..] == s[1..][..n][m..];
        PeelFirst(s[..n + 1], tokens, m + 1);
        assert RunsOffAt(s, tokens, body, n + 1);
      }
      if n: nat :| RunsOffAt(s, tokens, body, n) {
        LaterRun(s, tokens, body, n);
      }
    }
  }

  /** When the rest of the pattern cannot start at once, `*` takes the first character. */
  lemma LaterRun(s: Text, tokens: seq<Token>, body: Text, n: nat)
    requires s != [] && tokens != [] && tokens[0].AnyRun?
    requires RunsOffAt(s, tokens, body, n) && !RunsOffAt(s, tokens[1..], body, n)
    ensures n > 0 && RunsOffAt(s[1..], tokens, body, n - 1)
  {
    var m := FirstPiece(s[..n], tokens);
    assert s[..n][0..] == s[..n];
    if m != 0 {
      assert s[1..][..n - 1][m - 1..] == s[..n][m..];
      PeelFirst(s[1..][..n - 1], tokens, m - 1);
    }
  }

  /** Exactly which strings make the matcher read beyond which patterns: those with a beginning in the
      language of the tokens in front of the open set, and behind it a character that runs off the set. */
  lemma PastEndAtIff(s: Text, p: Text)
    ensures MatchOutcome(s, p) == PastEnd <==>
      Parse(p).open.Some? && RunsOffSomewhere(s, Parse(p).tokens, Parse(p).open.value)
  {
    if Parse(p).open.Some? {
      SearchRunsOff(s, Parse(p).tokens, Parse(p).open.value);
    } else {
      SearchDecides(s, Parse(p).tokens);
    }
  }

  /** The only sets no character belongs to: `[]` and `[-]`. */
  predicate EmptySet(body: Text) {
    body == [] || body == [DASH]
  }

  lemma EmptySetIff(body: Text)
    ensures EmptySet(body) <==> forall c: Char16 :: c != 0 ==> !InSet(body, c)
  {
    if !EmptySet(body) {
      var k := if body[0] == DASH then 1 else 0;
      assert Admits(body, 0, body[k]);
      assert InSet(body, body[k]);
    }
  }

  /** The pattern leaves a set open, not as a bare `[-`, and no empty set stands in front of it. */
  predicate CanRunOff(tokens: seq<Token>, open: Option<Text>) {
    && open.Some? && open.value != [DASH]
    && forall i :: 0 <= i < |tokens| && tokens[i].OneOf? ==> !EmptySet(tokens[i].body)
  }

  lemma {:induction false} RunsOffOnlyIf(s: Text, tokens: seq<Token>, open: Option<Text>)
    requires Search(s, tokens, open) == PastEnd
    ensures CanRunOff(tokens, open)
    decreases |tokens|, |s|
  {
    if tokens == [] {
      EmptySetIff(open.value);
    } else {
      if tokens[0].AnyRun? && Search(s, tokens[1..], open) != PastEnd {
        RunsOffOnlyIf(s[1..], tokens, open);
      } else {
        if tokens[0].OneOf? {
          EmptySetIff(tokens[0].body);
        }
        RunsOffOnlyIf(if tokens[0].AnyRun? then s else s[1..], tokens[1..], open);
        assert forall i :: 0 < i < |tokens| ==> tokens[i] == tokens[1..][i - 1];
      }
    }
  }

  lemma {:induction false} RunsOffWitness(tokens: seq<Token>, open: Option<Text>) returns (s: Text)
    requires CanRunOff(tokens, open)
    requires forall i :: 0 <= i < |tokens| && tokens[i].Just? ==> tokens[i].c != 0
    ensures Search(s, tokens, open) == PastEnd
  {
    var one: Char16 := 1;
    if tokens == [] {
      var body := open.value;
      if body != [] && body[|body| - 1] == DASH {
        EmptySetIff(body);
        var c: Char16 :| c != 0 && InSet(body, c);
        s := [c];
      } else {
        s := [one];
      }
    } else {
      var rest := RunsOffWitness(tokens[1..], open);
      match tokens[0]
      case AnyRun => s := rest;
      case AnyOne => s := [one] + rest;
      case Just(c) => s := [c] + rest;
      case OneOf(body) =>
        EmptySetIff(body);
        var c: Char16 :| c != 0 && InSet(body, c);
        s := [c] + rest;
      if !tokens[0].AnyRun? {
        assert s[1..] == rest;
      }
    }
  }

  lemma {:induction false} ParsedLiterals(p: Text)
    ensures forall i :: 0 <= i < |Parse(p).tokens| && Parse(p).tokens[i].Just? ==> Parse(p).tokens[i].c != 0
    decreases |p|
  {
    if p != [] {
      if p[0] == OPEN {
        var k := FirstClose(p[1..]);
        if k != |p| - 1 {
          ParsedLiterals(p[k + 2..]);
        }
      } else {
        ParsedLiterals(p[1..]);
      }
    }
  }

  /** Some string makes the matcher read beyond the pattern's terminator exactly when the pattern has
      an open set the matcher can get into and out of. */
  lemma PastEndIff(p: Text)
    ensures (exists s: Text :: MatchOutcome(s, p) == PastEnd) <==> CanRunOff(Parse(p).tokens, Parse(p).open)
  {
    var tokens, open := Parse(p).tokens, Parse(p).open;
    if CanRunOff(tokens, open) {
      ParsedLiterals(p);
      var s := RunsOffWitness(tokens, open);
      assert MatchOutcome(s, p) == PastEnd;
    }
    if s: Text :| MatchOutcome(s, p) == PastEnd {
      RunsOffOnlyIf(s, tokens, open);
    }
  }

  // ----- what each part of a pattern means, written out -----

  lemma EndMeans(s: Text)
    ensures MatchOutcome(s, []) == Done(s == [])
  {}

  /** `*` stands for any characters, none included. */
  lemma {:induction false} StarMeans(s: Text, p: Text)
    ensures MatchOutcome(s, ['*' as int] + p) == Done(true)
      <==> exists n :: 0 <= n <= |s| && MatchOutcome(s[n..], p) == Done(true)
    ensures MatchOutcome(s, ['*' as int] + p) == PastEnd
      <==> exists n :: 0 <= n <= |s| && MatchOutcome(s[n..], p) == PastEnd
    decreases |s|
  {
    var pat: Text := ['*' as int] + p;
    assert pat[1..] == p;
    SearchStar(s, pat);
    SearchStarStep(s, p);
    OnlyFalseGoesOn(s, p);
    hide MatchOutcome, Search, Parse;
    assert s[0..] == s;
    if s != [] {
      StarMeans(s[1..], p);
      SearchStar(s[1..], pat);
      assert forall n :: 0 < n <= |s| ==> s[1..][n - 1..] == s[n..];
      assert forall n :: 0 <= n <= |s[1..]| ==> s[1..][n..] == s[n + 1..];
    }
  }

  /** A read past the end at one place rules out a match at any other, and the other way round. */
  lemma OnlyFalseGoesOn(s: Text, p: Text)
    ensures MatchOutcome(s, p) == PastEnd ==> forall n :: 0 <= n <= |s| ==> MatchOutcome(s[n..], p) != Done(true)
    ensures MatchOutcome(s, p) == Done(true) ==> forall n :: 0 <= n <= |s| ==> MatchOutcome(s[n..], p) != PastEnd
  {
    MatchesLanguage(s, p);
    forall n | 0 <= n <= |s|
      ensures Closed(p) ==> MatchOutcome(s[n..], p) != PastEnd
      ensures !Closed(p) ==> MatchOutcome(s[n..], p) != Done(true)
    {
      MatchesLanguage(s[n..], p);
    }
  }

  /** `?` stands for one character, any other character but `*` and `[` for itself. */
  lemma CharacterMeans(s: Text, c: Char16, p: Text)
    requires c != 0 && c != '*' as int && c != '[' as int
    ensures MatchOutcome(s, [c] + p) ==
      if s != [] && (c == '?' as int || s[0] == c) then MatchOutcome(s[1..], p) else Done(false)
  {
    var pat: Text := [c] + p;
    assert pat[1..] == p;
    SearchPlain(s, pat);
  }

  /** `[`, characters and `]` stand for one character of the set. */
  lemma SetMeans(s: Text, body: Text, p: Text)
    requires ']' as int !in body
    ensures MatchOutcome(s, ['[' as int] + body + [']' as int] + p) ==
      if s != [] && InSet(body, s[0]) then MatchOutcome(s[1..], p) else Done(false)
  {
    var pat: Text := ['[' as int] + body + [']' as int] + p;
    var rest: Text := pat[1..];
    assert rest == body + [']' as int] + p;
    ClosesAt(rest, |body|);
    assert rest[..|body|] == body && rest[|body| + 1..] == p;
    SearchSet(s, pat);
  }

  /** A set left open matches nothing, and reads past the end for the characters in it, or for all when it does
      not end in `-`. */
  lemma OpenSetMeans(s: Text, body: Text)
    requires ']' as int !in body
    ensures MatchOutcome(s, ['[' as int] + body) ==
      if s != [] && (InSet(body, s[0]) || body == [] || body[|body| - 1] != '-' as int) then PastEnd else Done(false)
  {
    var pat: Text := ['[' as int] + body;
    assert pat[1..] == body;
    SearchSet(s, pat);
  }

  lemma {:induction false} ClosesAt(p: Text, k: nat)
    requires k < |p| && p[k] == CLOSE && CLOSE !in p[..k]
    ensures FirstClose(p) == k
  {
    if k > 0 {
      assert p[0] == p[..k][0] && p[1..][..k - 1] == p[..k][1..];
      ClosesAt(p[1..], k - 1);
    }
  }

  /** Which characters a set admits: one that stands in it and is no `-`, one between the ends of a range around a
      `-`, from 0 on when the `-` is first, and the upper end of such a range. */
  lemma InSetMeans(body: Text, c: Char16)
    ensures InSet(body, c) <==>
      || (exists k :: 0 <= k < |body| && body[k] != '-' as int && c == body[k])
      || (exists k :: 1 <= k < |body| && body[k - 1] == '-' as int && c == body[k])
      || (exists k :: 2 <= k < |body| && body[k - 1] == '-' as int && body[k - 2] <= c <= body[k])
      || (|body| >= 2 && body[0] == '-' as int && c <= body[1])
  {
    if InSet(body, c) {
      var k :| 0 <= k < |body| && Admits(body, k, c);
      if body[k] == '-' as int {
        assert body[k + 1 - 1] == '-' as int;
        assert k > 0 ==> body[k + 1 - 2] == body[k - 1];
      }
    }
    if k :| 0 <= k < |body| && body[k] != '-' as int && c == body[k] {
      assert Admits(body, k, c);
    }
    if k :| 1 <= k < |body| && body[k - 1] == '-' as int && c == body[k] {
      assert Admits(body, k - 1, c);
    }
    if k :| 2 <= k < |body| && body[k - 1] == '-' as int && body[k - 2] <= c <= body[k] {
      assert Admits(body, k - 1, c);
    }
    if |body| >= 2 && body[0] == '-' as int && c <= body[1] {
      assert Admits(body, 0, c);
    }
  }

  /** A set the way it is meant to be written. */
  datatype Member = One(c: Char16) | Range(lo: Char16, hi: Char16)

  predicate Proper(m: Member) {
    match m
    case One(c) => c != 0 && c != '-' as int && c != ']' as int
    case Range(lo, hi) =>
      lo != 0 && lo != '-' as int && lo != ']' as int && hi != 0 && hi != '-' as int && hi != ']' as int
  }

  predicate AllProper(ms: seq<Member>) {
    forall i :: 0 <= i < |ms| ==> Proper(ms[i])
  }

  function Spelled(m: Member): (t: Text)
    requires Proper(m)
  {
    match m
    case One(c) => [c]
    case Range(lo, hi) => [lo, '-' as int, hi]
  }

  function SpelledAll(ms: seq<Member>): (t: Text)
    requires AllProper(ms)
  {
    if ms == [] then [] else SpelledAll(ms[..|ms| - 1]) + Spelled(ms[|ms| - 1])
  }

  predicate Means(m: Member, c: Char16) {
    match m
    case One(x) => c == x
    case Range(lo, hi) => lo <= c <= hi || c == lo || c == hi
  }

  lemma NoDashAtEnds(ms: seq<Member>)
    requires AllProper(ms)
    ensures var t := SpelledAll(ms); ']' as int !in t && (t != [] ==> t[|t| - 1] != '-' as int)
  {}

  /** Behind characters that do not end in `-` a member adds what it means. */
  lemma OneMemberMore(t: Text, m: Member, c: Char16)
    requires Proper(m) && (t != [] ==> t[|t| - 1] != '-' as int)
    ensures InSet(t + Spelled(m), c) <==> InSet(t, c) || Means(m, c)
  {
    var u: Text := t + Spelled(m);
    assert forall k :: 0 <= k < |t| ==> u[k] == t[k];
    forall k | 0 <= k < |t|
      ensures Admits(u, k, c) <==> Admits(t, k, c)
    {}
    assert forall k :: |t| <= k < |u| ==> u[k] == Spelled(m)[k - |t|];
    if InSet(t, c) {
      var k :| 0 <= k < |t| && Admits(t, k, c);
      assert Admits(u, k, c);
    }
    if Means(m, c) {
      assert m.One? || c == m.lo ==> Admits(u, |t|, c);
      assert m.Range? && c != m.lo ==> Admits(u, |t| + 1, c);
    }
  }

  /** Such a set admits exactly the characters of its members: in a range, both ends and what lies between. */
  lemma {:induction false} MembersMean(ms: seq<Member>, c: Char16)
    requires AllProper(ms)
    ensures InSet(SpelledAll(ms), c) <==> exists i :: 0 <= i < |ms| && Means(ms[i], c)
  {
    if ms != [] {
      var front, last := ms[..|ms| - 1], ms[|ms| - 1];
      MembersMean(front, c);
      NoDashAtEnds(front);
      OneMemberMore(SpelledAll(front), last, c);
      assert forall i :: 0 <= i < |front| ==> front[i] == ms[i];
    }
  }

  /** So one character matches the pattern of one range exactly when it is in it. */
  lemma RangeMatches(lo: Char16, hi: Char16, c: Char16)
    requires Proper(Range(lo, hi)) && c != 0
    ensures MatchOutcome([c], ['[' as int, lo, '-' as int, hi, ']' as int])
      == Done(lo <= c <= hi || c == lo || c == hi)
  {
    var ms, body: Text := [Range(lo, hi)], [lo, '-' as int, hi];
    assert ms[..0] == [] && SpelledAll(ms) == body;
    MembersMean(ms, c);
    assert Means(ms[0], c) <==> exists i :: 0 <= i < |ms| && Means(ms[i], c);
    SetMeans([c], body, []);
    assert ['[' as int] + body + [']' as int] + [] == ['[' as int, lo, '-' as int, hi, ']' as int];
    EndMeans([c][1..]);
  }
}
