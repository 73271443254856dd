/** The relationship extractor: turns a language model's reply into
    (entity1, relationship, entity2) triples. A reply is read line by line; on each
    stripped line every non-overlapping match of the pattern
        \(([^)]+)\)-\[([^\]]+)\]->\(([^)]+)\)
    is taken from left to right, its three groups are stripped, and the triple is
    kept when none of the three is empty. */
module RelationshipParser {
  import opened Text
  import opened Seqs

  datatype Option<T> = None | Some(value: T)

  /** The three groups of one match, or one extracted relationship. */
  datatype Triple = Triple(entity1: string, relationship: string, entity2: string)

  /** A match of the pattern: its three groups and the index just past its last `)`. */
  datatype Match = Match(groups: Triple, end: nat)

  /** The line format the extraction prompt asks for, `(entity1)-[relationship]->(entity2)`;
      it is also exactly the text a match of the pattern covers. */
  function FormatLine(t: Triple): string {
    "(" + t.entity1 + ")-[" + t.relationship + "]->(" + t.entity2 + ")"
  }

  /** Groups the pattern can capture: `[^)]+`, `[^\]]+`, `[^)]+`. */
  predicate Matchable(t: Triple) {
    t.entity1 != [] && ')' !in t.entity1 &&
    t.relationship != [] && ']' !in t.relationship &&
    t.entity2 != [] && ')' !in t.entity2
  }

  /** The test `if entity1 and relationship and entity2`: no field is empty. */
  predicate NonEmpty(t: Triple) {
    t.entity1 != [] && t.relationship != [] && t.entity2 != []
  }

  /** What an extracted triple looks like: capturable, non-empty, stripped, and on one line. */
  predicate WellFormed(t: Triple) {
    Matchable(t) &&
    Trimmed(t.entity1) && Trimmed(t.relationship) && Trimmed(t.entity2) &&
    '\n' !in t.entity1 && '\n' !in t.relationship && '\n' !in t.entity2
  }

  /** Index of the first `c` at or after `from`, or `|s|` when there is none. */
  function Find(s: string, from: nat, c: char): (k: nat)
    requires from <= |s|
    ensures from <= k <= |s|
    ensures k < |s| ==> s[k] == c
    ensures forall j | from <= j < k :: s[j] != c
    decreases |s| - from
  {
    if from == |s| || s[from] == c then from else Find(s, from + 1, c)
  }

  /** The pattern tried at index `i`. Each group is a negated character class followed
      by the character it excludes, so a group always runs up to the first such
      character and there is at most one way to match (see MatchAtSound and
      MatchAtComplete). A match ends after index `i`, so scanning moves on. */
  function MatchAt(s: string, i: nat): (r: Option<Match>)
    requires i <= |s|
    ensures r.Some? ==> i < r.value.end <= |s|
  {
    if i == |s| || s[i] != '(' then None
    else AfterEntity1(s, i, Find(s, i + 1, ')'))
  }

  /** After `(` at `i` and the first `)` from `i + 1` at `k1`: expect a non-empty entity,
      then `-[`, and scan the relationship up to the first `]`. */
  function AfterEntity1(s: string, i: nat, k1: nat): (r: Option<Match>)
    requires i < k1 <= |s|
    ensures r.Some? ==> i < r.value.end <= |s|
  {
    if k1 == i + 1 || k1 + 2 >= |s| || s[k1 + 1] != '-' || s[k1 + 2] != '[' then None
    else AfterRelationship(s, i, k1, Find(s, k1 + 3, ']'))
  }

  /** With the first `]` at `k2`: expect a non-empty relationship, then `->(`, and scan
      the second entity up to the first `)`. */
  function AfterRelationship(s: string, i: nat, k1: nat, k2: nat): (r: Option<Match>)
    requires i < k1 && k1 + 3 <= k2 <= |s|
    ensures r.Some? ==> i < r.value.end <= |s|
  {
    if k2 == k1 + 3 || k2 + 3 >= |s| || s[k2 + 1] != '-' || s[k2 + 2] != '>' || s[k2 + 3] != '(' then None
    else AfterEntity2(s, i, k1, k2, Find(s, k2 + 4, ')'))
  }

  /** With the closing `)` searched from `k2 + 4` found at `k3`: expect a non-empty
      entity closed by that `)`. */
  function AfterEntity2(s: string, i: nat, k1: nat, k2: nat, k3: nat): (r: Option<Match>)
    requires i < k1 && k1 + 3 <= k2 && k2 + 4 <= k3 <= |s|
    ensures r.Some? ==> i < r.value.end <= |s|
  {
    if k3 == k2 + 4 || k3 == |s| then None
    else Some(Match(Triple(s[i + 1..k1], s[k1 + 3..k2], s[k2 + 4..k3]), k3 + 1))
  }

  /** `re.findall` with this pattern from index `p`: where the pattern matches, take the
      match and go on after it; elsewhere move one character on (see FindAllSound). */
  function FindAll(s: string, p: nat): seq<Triple>
    requires p <= |s|
    decreases |s| - p
  {
    if p == |s| then []
    else match MatchAt(s, p)
      case Some(m) => [m.groups] + FindAll(s, m.end)
      case None => FindAll(s, p + 1)
  }

  /** One match as the parser keeps it: the stripped groups, if none of them is empty. */
  function Admit(m: Triple): seq<Triple> {
    var t := Triple(Strip(m.entity1), Strip(m.relationship), Strip(m.entity2));
    if NonEmpty(t) then [t] else []
  }

  /** The triples of one line of the reply: its matches as the parser keeps them. */
  function LineTriples(line: string): seq<Triple> {
    FlatMap(Admit, FindAll(Strip(line), 0))
  }

  /** What `_parse_relationships` returns for a reply: the triples of its lines, in order. */
  function Parse(response: string): seq<Triple> {
    FlatMap(LineTriples, Split(response))
  }

  /** The reply `_parse_relationships` expects: one formatted line per triple. */
  function Format(ts: seq<Triple>): string {
    if |ts| == 0 then ""
    else if |ts| == 1 then FormatLine(ts[0])
    else FormatLine(ts[0]) + "\n" + Format(ts[1..])
  }

  /** `_parse_relationships`: for each line, strip it, find all matches and keep
      them (KeepMatches). Every returned triple is well formed. */
  method ParseRelationships(response: string) returns (relationships: seq<Triple>)
    ensures relationships == Parse(response)
    ensures forall t | t in relationships :: WellFormed(t)
  {
    relationships := [];
    var lines := Split(response);
    var i := 0;
    while i < |lines|
      invariant 0 <= i <= |lines|
      invariant relationships == [] + FlatMap(LineTriples, lines[..i])
    {
      var line := Strip(lines[i]);
      var matches := FindAll(line, 0);
      var kept := KeepMatches(matches);
      FlatMapStep(LineTriples, [], lines, i);
      relationships := relationships + kept;
      i := i + 1;
    }
    assert lines[..i] == lines;
    ParseAllWellFormed(response);
  }

  /** The inner loop of `_parse_relationships`: strip the three groups of each match
      and append the triple when no group is empty. */
  method KeepMatches(matches: seq<Triple>) returns (kept: seq<Triple>)
    ensures kept == FlatMap(Admit, matches)
  {
    kept := [];
    var j := 0;
    while j < |matches|
      invariant 0 <= j <= |matches|
      invariant kept == [] + FlatMap(Admit, matches[..j])
    {
      var entity1 := Strip(matches[j].entity1);
      var relationship := Strip(matches[j].relationship);
      var entity2 := Strip(matches[j].entity2);
      AdmitKeeps(matches[j], entity1, relationship, entity2);
      FlatMapStep(Admit, [], matches, j);
      if entity1 != [] && relationship != [] && entity2 != [] {
        kept := kept + [Triple(entity1, relationship, entity2)];
      }
      j := j + 1;
    }
    assert matches[..j] == matches;
  }

  // ----- Properties of the parser -----

  /** Proof step of KeepMatches: its stripped locals are what Admit keeps. */
  lemma AdmitKeeps(m: Triple, entity1: string, relationship: string, entity2: string)
    requires entity1 == Strip(m.entity1) && relationship == Strip(m.relationship)
    requires entity2 == Strip(m.entity2)
    ensures Admit(m) == if entity1 != [] && relationship != [] && entity2 != []
                        then [Triple(entity1, relationship, entity2)] else []
  {
  }

  /** The text from `i` to `k3` that MatchAt accepts is the formatted line of its groups. */
  lemma MatchText(s: string, i: nat, k1: nat, k2: nat, k3: nat)
    requires i < k1 && k1 + 3 <= k2 && k2 + 4 <= k3 < |s|
    requires s[i] == '(' && s[k1] == ')' && s[k1 + 1] == '-' && s[k1 + 2] == '['
    requires s[k2] == ']' && s[k2 + 1] == '-' && s[k2 + 2] == '>' && s[k2 + 3] == '('
    requires s[k3] == ')'
    ensures s[i..k3 + 1] == FormatLine(Triple(s[i + 1..k1], s[k1 + 3..k2], s[k2 + 4..k3]))
  {
    assert s[i..i + 1] == "(";
    assert s[k1..k1 + 3] == ")-[";
    assert s[k2..k2 + 4] == "]->(";
    assert s[k3..k3 + 1] == ")";
    assert s[i..k1] == s[i..i + 1] + s[i + 1..k1];
    assert s[i..k1 + 3] == s[i..k1] + s[k1..k1 + 3];
    assert s[i..k2] == s[i..k1 + 3] + s[k1 + 3..k2];
    assert s[i..k2 + 4] == s[i..k2] + s[k2..k2 + 4];
    assert s[i..k3] == s[i..k2 + 4] + s[k2 + 4..k3];
    assert s[i..k3 + 1] == s[i..k3] + s[k3..k3 + 1];
  }

  /** The middle part of a concatenation. */
  lemma Infix(x: string, y: string, z: string)
    ensures (x + y + z)[|x|..|x| + |y|] == y
  {
  }
  /** The fields of a formatted line sit at fixed offsets. */
  lemma FormatLineParts(t: Triple)
    ensures var a, b, c := |t.entity1|, |t.relationship|, |t.entity2|;
      var line := FormatLine(t);
      |line| == a + b + c + 9 &&
      line[1..1 + a] == t.entity1 &&
      line[4 + a..4 + a + b] == t.relationship &&
      line[8 + a + b..8 + a + b + c] == t.entity2
  {
    var line := FormatLine(t);
    var p1 := "(" + t.entity1;
    var p2 := p1 + ")-[";
    var p3 := p2 + t.relationship;
    var p4 := p3 + "]->(";
    var p5 := p4 + t.entity2;
    assert line == p5 + ")";
    Infix("(", t.entity1, line[|p1|..]);
    assert line == "(" + t.entity1 + line[|p1|..];
    Infix(p2, t.relationship, line[|p3|..]);
    assert line == p2 + t.relationship + line[|p3|..];
    Infix(p4, t.entity2, ")");
  }
  /** The punctuation of a formatted line sits at fixed offsets. */
  lemma FormatLinePunctuation(t: Triple)
    ensures var a, b, c := |t.entity1|, |t.relationship|, |t.entity2|;
      var line := FormatLine(t);
      |line| == a + b + c + 9 &&
      line[0] == '(' && line[1 + a] == ')' &&
      line[2 + a] == '-' && line[3 + a] == '[' &&
      line[4 + a + b] == ']' &&
      line[5 + a + b] == '-' && line[6 + a + b] == '>' && line[7 + a + b] == '(' &&
      line[8 + a + b + c] == ')'
  {
    var line := FormatLine(t);
    var p1 := "(" + t.entity1;
    var p2 := p1 + ")-[";
    var p3 := p2 + t.relationship;
    var p4 := p3 + "]->(";
    var p5 := p4 + t.entity2;
    assert line == p5 + ")";
    assert p2[|p1|] == ')' && p2[|p1| + 1] == '-' && p2[|p1| + 2] == '[';
    assert p4[|p3|] == ']' && p4[|p3| + 1] == '-' && p4[|p3| + 2] == '>' && p4[|p3| + 3] == '(';
    assert line[0] == p1[0];
  }
  /** Where a formatted line occurs, its fields sit at fixed offsets. */
  lemma FormatLineFieldsAt(s: string, i: nat, t: Triple)
    requires OccursAt(s, FormatLine(t), i)
    ensures var a, b, c := |t.entity1|, |t.relationship|, |t.entity2|;
      |FormatLine(t)| == a + b + c + 9 && i + a + b + c + 9 <= |s| &&
      s[i + 1..i + 1 + a] == t.entity1 &&
      s[i + 4 + a..i + 4 + a + b] == t.relationship &&
      s[i + 8 + a + b..i + 8 + a + b + c] == t.entity2
  {
    var a, b, c := |t.entity1|, |t.relationship|, |t.entity2|;
    var line := FormatLine(t);
    FormatLineParts(t);
    OccurrenceSlice(s, line, i, 1, 1 + a);
    OccurrenceSlice(s, line, i, 4 + a, 4 + a + b);
    OccurrenceSlice(s, line, i, 8 + a + b, 8 + a + b + c);
  }

  /** Where a formatted line occurs, its punctuation sits at fixed offsets. */
  lemma FormatLinePunctuationAt(s: string, i: nat, t: Triple)
    requires OccursAt(s, FormatLine(t), i)
    ensures var a, b, c := |t.entity1|, |t.relationship|, |t.entity2|;
      i + a + b + c + 9 <= |s| &&
      s[i] == '(' && s[i + 1 + a] == ')' && s[i + 2 + a] == '-' && s[i + 3 + a] == '[' &&
      s[i + 4 + a + b] == ']' && s[i + 5 + a + b] == '-' && s[i + 6 + a + b] == '>' &&
      s[i + 7 + a + b] == '(' && s[i + 8 + a + b + c] == ')'
  {
    var a, b, c := |t.entity1|, |t.relationship|, |t.entity2|;
    var line := FormatLine(t);
    FormatLinePunctuation(t);
    var w := s[i..i + |line|];
    assert s[i] == w[0] && s[i + 1 + a] == w[1 + a] && s[i + 2 + a] == w[2 + a] && s[i + 3 + a] == w[3 + a];
    assert s[i + 4 + a + b] == w[4 + a + b] && s[i + 5 + a + b] == w[5 + a + b];
    assert s[i + 6 + a + b] == w[6 + a + b] && s[i + 7 + a + b] == w[7 + a + b];
    assert s[i + 8 + a + b + c] == w[8 + a + b + c];
  }

  /** Find stops exactly at the first occurrence. */
  lemma FindAt(s: string, from: nat, k: nat, c: char)
    requires from <= k < |s| && s[k] == c && c !in s[from..k]
    ensures Find(s, from, c) == k
  {
  }

  /** What the pattern accepts at `i` is a formatted line of capturable groups. */
  lemma MatchAtSound(s: string, i: nat)
    requires i <= |s|
    ensures var r := MatchAt(s, i);
      r.Some? ==> Matchable(r.value.groups) && s[i..r.value.end] == FormatLine(r.value.groups)
  {
    if MatchAt(s, i).Some? {
      var k1 := Find(s, i + 1, ')');
      var k2 := Find(s, k1 + 3, ']');
      var k3 := Find(s, k2 + 4, ')');
      MatchText(s, i, k1, k2, k3);
      assert ')' !in s[i + 1..k1] && ']' !in s[k1 + 3..k2] && ')' !in s[k2 + 4..k3];
    }
  }

  /** The first stage passes to the second at the first `)`. */
  lemma AcceptEntity1(s: string, i: nat, k1: nat)
    requires i < k1 < |s| && s[i] == '(' && s[k1] == ')' && ')' !in s[i + 1..k1]
    ensures MatchAt(s, i) == AfterEntity1(s, i, k1)
  {
    FindAt(s, i + 1, k1, ')');
  }

  /** The second stage passes to the third at the first `]` after `-[`. */
  lemma AcceptRelationship(s: string, i: nat, k1: nat, k2: nat)
    requires i + 1 < k1 && k1 + 3 <= k2 < |s|
    requires s[k1 + 1] == '-' && s[k1 + 2] == '[' && s[k2] == ']' && ']' !in s[k1 + 3..k2]
    ensures AfterEntity1(s, i, k1) == AfterRelationship(s, i, k1, k2)
  {
    FindAt(s, k1 + 3, k2, ']');
  }

  /** The third stage passes to the last at the first `)` after `]->(`. */
  lemma AcceptEntity2(s: string, i: nat, k1: nat, k2: nat, k3: nat)
    requires i < k1 && k1 + 3 < k2 && k2 + 4 <= k3 < |s|
    requires s[k2 + 1] == '-' && s[k2 + 2] == '>' && s[k2 + 3] == '('
    requires s[k3] == ')' && ')' !in s[k2 + 4..k3]
    ensures AfterRelationship(s, i, k1, k2) == AfterEntity2(s, i, k1, k2, k3)
  {
    FindAt(s, k2 + 4, k3, ')');
  }

  /** The regex matches at `i` whenever the text there is a formatted line of
      capturable groups, and it captures exactly those groups: together with the
      postcondition of MatchAt, MatchAt is the pattern's language at index `i`. */
  lemma MatchAtComplete(s: string, i: nat, t: Triple)
    requires Matchable(t) && OccursAt(s, FormatLine(t), i)
    ensures MatchAt(s, i) == Some(Match(t, i + |FormatLine(t)|))
  {
    var a, b, c := |t.entity1|, |t.relationship|, |t.entity2|;
    var k1, k2, k3 := i + 1 + a, i + 4 + a + b, i + 8 + a + b + c;
    FormatLineLandmarks(s, i, t, k1, k2, k3);
    MatchAtAccepts(s, i, k1, k2, k3);
  }

  /** An occurrence of a formatted line of capturable groups has the landmarks the
      pattern looks for, at the offsets its fields give. */
  lemma FormatLineLandmarks(s: string, i: nat, t: Triple, k1: nat, k2: nat, k3: nat)
    requires Matchable(t) && OccursAt(s, FormatLine(t), i)
    requires k1 == i + 1 + |t.entity1| && k2 == k1 + 3 + |t.relationship|
    requires k3 == k2 + 4 + |t.entity2|
    ensures i + 1 < k1 && k1 + 3 < k2 && k2 + 4 < k3 < |s| && k3 + 1 == i + |FormatLine(t)|
    ensures s[i] == '(' && s[k1] == ')' && ')' !in s[i + 1..k1]
    ensures s[k1 + 1] == '-' && s[k1 + 2] == '[' && s[k2] == ']' && ']' !in s[k1 + 3..k2]
    ensures s[k2 + 1] == '-' && s[k2 + 2] == '>' && s[k2 + 3] == '('
    ensures s[k3] == ')' && ')' !in s[k2 + 4..k3]
    ensures Triple(s[i + 1..k1], s[k1 + 3..k2], s[k2 + 4..k3]) == t
  {
    FormatLineFieldsAt(s, i, t);
    FormatLinePunctuationAt(s, i, t);
  }

  /** With the landmarks of a match in place, the pattern matches at `i` and
      captures the text between them. */
  lemma MatchAtAccepts(s: string, i: nat, k1: nat, k2: nat, k3: nat)
    requires i + 1 < k1 && k1 + 3 < k2 && k2 + 4 < k3 < |s|
    requires s[i] == '(' && s[k1] == ')' && ')' !in s[i + 1..k1]
    requires s[k1 + 1] == '-' && s[k1 + 2] == '[' && s[k2] == ']' && ']' !in s[k1 + 3..k2]
    requires s[k2 + 1] == '-' && s[k2 + 2] == '>' && s[k2 + 3] == '('
    requires s[k3] == ')' && ')' !in s[k2 + 4..k3]
    ensures MatchAt(s, i) == Some(Match(Triple(s[i + 1..k1], s[k1 + 3..k2], s[k2 + 4..k3]), k3 + 1))
  {
    AcceptEntity2(s, i, k1, k2, k3);
    AcceptRelationship(s, i, k1, k2);
    AcceptEntity1(s, i, k1);
  }

  /** Lines are independent: the triples of `x + "\n" + y` are those of `x` followed by
      those of `y`, so triples come out in line order. */
  lemma ParseConcat(x: string, y: string)
    ensures Parse(x + "\n" + y) == Parse(x) + Parse(y)
  {
    SplitConcat(x, y);
    FlatMapAppend(LineTriples, Split(x), Split(y));
  }

  /** Every result of findall is a capturable triple whose formatted line occurs in `s`. */
  lemma {:induction false} FindAllSound(s: string, p: nat)
    requires p <= |s|
    ensures forall t | t in FindAll(s, p) :: Matchable(t) && Contains(s, FormatLine(t))
    decreases |s| - p
  {
    if p < |s| {
      match MatchAt(s, p)
      case Some(m) =>
        MatchAtSound(s, p);
        FindAllSound(s, m.end);
        ContainsIff(s, FormatLine(m.groups));
        assert OccursAt(s, FormatLine(m.groups), p);
      case None =>
        FindAllSound(s, p + 1);
    }
  }

  /** A kept triple is well formed when the line it came from has no newline. */
  lemma AdmitWellFormed(m: Triple, s: string, t: Triple)
    requires '\n' !in s && Matchable(m) && Contains(s, FormatLine(m)) && t in Admit(m)
    ensures WellFormed(t) && NonEmpty(t)
  {
    ContainsChars(s, FormatLine(m));
    StripSpec(m.entity1);
    StripSpec(m.relationship);
    StripSpec(m.entity2);
    assert forall ch | ch in m.entity1 :: ch in FormatLine(m);
    assert forall ch | ch in m.relationship :: ch in FormatLine(m);
    assert forall ch | ch in m.entity2 :: ch in FormatLine(m);
  }

  /** Every extracted triple has three non-empty, stripped fields; the entities hold no
      `)`, the relationship no `]`, and none holds a newline. */
  lemma ParseWellFormed(response: string, t: Triple)
    requires t in Parse(response)
    ensures WellFormed(t) && NonEmpty(t)
  {
    var lines := Split(response);
    FlatMapMembers(LineTriples, lines, t);
    var line :| line in lines && t in LineTriples(line);
    SplitPieces(response);
    var stripped := Strip(line);
    StripSpec(line);
    FindAllSound(stripped, 0);
    FlatMapMembers(Admit, FindAll(stripped, 0), t);
    var m :| m in FindAll(stripped, 0) && t in Admit(m);
    AdmitWellFormed(m, stripped, t);
  }

  /** Every extracted triple is well formed. */
  lemma ParseAllWellFormed(response: string)
    ensures forall t | t in Parse(response) :: WellFormed(t) && NonEmpty(t)
  {
    forall t | t in Parse(response)
      ensures WellFormed(t) && NonEmpty(t)
    {
      ParseWellFormed(response, t);
    }
  }

  /** Scanning text with no `(` finds nothing. */
  lemma {:induction false} FindAllNoParen(s: string, p: nat)
    requires p <= |s| && '(' !in s
    ensures FindAll(s, p) == []
    decreases |s| - p
  {
    if p < |s| {
      FindAllNoParen(s, p + 1);
    }
  }

  /** A reply without any `(`, such as plain prose, yields no triple (and no error). */
  lemma ParseNoParen(response: string)
    requires '(' !in response
    ensures Parse(response) == []
  {
    var lines := Split(response);
    if Parse(response) != [] {
      var t := Parse(response)[0];
      FlatMapMembers(LineTriples, lines, t);
      var line :| line in lines && t in LineTriples(line);
      SplitPieces(response);
      StripSpec(line);
      assert '(' !in Strip(line);
      FindAllNoParen(Strip(line), 0);
      assert false;
    }
  }

  /** Round trip of one line: the formatted line of a well-formed triple parses back
      to exactly that triple. */
  lemma ParseFormatLine(t: Triple)
    requires WellFormed(t)
    ensures Parse(FormatLine(t)) == [t]
  {
    var line := FormatLine(t);
    assert '\n' !in line;
    SplitOneLine(line);
    assert Trimmed(line);
    StripSpec(line);
    StripSpec(t.entity1);
    StripSpec(t.relationship);
    StripSpec(t.entity2);
    assert OccursAt(line, line, 0);
    MatchAtComplete(line, 0, t);
    assert FindAll(line, 0) == [t] + FindAll(line, |line|);
    FlatMapSnoc(Admit, [], t);
    FlatMapSnoc(LineTriples, [], line);
  }

  /** Round trip: a reply formatted as the prompt asks parses back to the same
      triples, in the same order. */
  lemma {:induction false} ParseFormat(ts: seq<Triple>)
    requires forall t | t in ts :: WellFormed(t)
    ensures Parse(Format(ts)) == ts
  {
    if |ts| == 1 {
      ParseFormatLine(ts[0]);
    } else if |ts| > 1 {
      ParseFormatLine(ts[0]);
      ParseFormat(ts[1..]);
      ParseConcat(FormatLine(ts[0]), Format(ts[1..]));
      assert ts == [ts[0]] + ts[1..];
    }
  }
}
