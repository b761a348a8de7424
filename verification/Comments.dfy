/** What `stripComments` (app/backend/src/bart/emitter.ts) removes, from any text whatever: also one that does
    not lex, or whose last string is never closed. */
module Comments {
  import opened Lex
  import opened Munch
  import opened Emitter

  /** A text is a row of these: characters of no string and no comment, closed strings, comments, and perhaps
      at the end a string that is never closed. */
  datatype Segment = Outside(c: char) | Closed(literal: string) | Note(comment: string) | Unclosed(rest: string)

  function SegmentText(segment: Segment): string {
    match segment
    case Outside(c) => [c]
    case Closed(literal) => literal
    case Note(comment) => comment
    case Unclosed(rest) => rest
  }

  function Whole(segments: seq<Segment>): string {
    if segments == [] then "" else SegmentText(segments[0]) + Whole(segments[1..])
  }

  /** The text without its comments. */
  function Without(segments: seq<Segment>): string {
    if segments == [] then ""
    else (if segments[0].Note? then "" else SegmentText(segments[0])) + Without(segments[1..])
  }

  /** A comment goes on to the end of its line. */
  predicate Fits(segment: Segment, after: string) {
    match segment
    case Outside(c) => c != '"' && c != '#'
    case Closed(literal) => IsString(literal)
    case Note(comment) =>
      && comment != "" && comment[0] == '#' && (forall c :: c in comment ==> c != '\n')
      && (after == "" || after[0] == '\n')
    case Unclosed(rest) => after == "" && rest != "" && rest[0] == '"' && StringEnd(rest, 1).None?
  }

  predicate Segmented(segments: seq<Segment>) {
    segments == [] || (Fits(segments[0], Whole(segments[1..])) && Segmented(segments[1..]))
  }

  lemma {:induction false} UnclosedKept(rest: string, i: nat)
    requires i <= |rest| && StringEnd(rest, i).None?
    ensures StripFrom(rest[i..], true) == rest[i..]
    decreases |rest| - i
  {
    if i == |rest| {
    } else if rest[i] == '\\' && i + 1 < |rest| {
      UnclosedKept(rest, i + 2);
      assert rest[i..][..2] + rest[i + 2..] == rest[i..] && rest[i..][2..] == rest[i + 2..];
    } else {
      if rest[i] == '\\' {
        assert rest[i + 1..] == "";
        StripNothing(true);
      } else {
        UnclosedKept(rest, i + 1);
      }
      assert rest[i..][1..] == rest[i + 1..] && [rest[i]] + rest[i + 1..] == rest[i..];
    }
  }

  lemma StripSegment(segment: Segment, after: string)
    requires Fits(segment, after)
    ensures StripFrom(SegmentText(segment) + after, false) ==
            (if segment.Note? then "" else SegmentText(segment)) + StripFrom(after, false)
  {
    match segment
    case Outside(c) => StripPlain([c], after);
    case Closed(literal) => StripPiece(Tok(StringLit, literal), after);
    case Note(comment) => StripComment(Comment(comment), after);
    case Unclosed(rest) =>
      UnclosedKept(rest, 1);
      StripNothing(false);
      assert rest + after == rest && rest == "\"" + rest[1..];
  }

  /** Exactly the comments go, and all else stays as it is. */
  lemma {:induction false} StripExact(segments: seq<Segment>)
    requires Segmented(segments)
    ensures Stripped(Whole(segments)) == Without(segments)
    decreases |segments|
  {
    hide Fits, StripFrom, SegmentText;
    if segments == [] {
      StripNothing(false);
    } else {
      StripExact(segments[1..]);
      StripSegment(segments[0], Whole(segments[1..]));
    }
  }

  lemma Cons(segment: Segment, segments: seq<Segment>)
    requires Fits(segment, Whole(segments)) && Segmented(segments)
    ensures Segmented([segment] + segments) && Whole([segment] + segments) == SegmentText(segment) + Whole(segments)
  {
    assert ([segment] + segments)[1..] == segments;
  }

  lemma CommentEnds(s: string)
    requires s != "" && s[0] == '#'
    ensures var n := RunEnd(CommentChars, s, 0);
            0 < n <= |s| && Fits(Note(s[..n]), s[n..])
  {
    var n := RunEnd(CommentChars, s, 0);
    assert n > 0 && s[..n][0] == s[0];
    forall c | c in s[..n]
      ensures c != '\n'
    {
      var k :| 0 <= k < n && s[..n][k] == c;
      assert In(s[k], CommentChars);
    }
  }

  lemma FirstSegment(s: string) returns (segment: Segment)
    requires s != ""
    ensures |SegmentText(segment)| > 0 && SegmentText(segment) <= s && Fits(segment, s[|SegmentText(segment)|..])
  {
    if s[0] == '"' {
      if StringEnd(s, 1).None? {
        segment := Unclosed(s);
      } else {
        StringPiece(s, 0);
        segment := Closed(s[0..StringEnd(s, 1).value]);
      }
    } else if s[0] == '#' {
      CommentEnds(s);
      segment := Note(s[..RunEnd(CommentChars, s, 0)]);
    } else {
      segment := Outside(s[0]);
    }
  }

  /** And every text is such a row. */
  lemma {:induction false} SegmentsOf(s: string) returns (segments: seq<Segment>)
    ensures Segmented(segments) && Whole(segments) == s
    decreases |s|
  {
    hide Fits, SegmentText;
    if s == "" {
      segments := [];
    } else {
      var segment := FirstSegment(s);
      var n := |SegmentText(segment)|;
      var more := SegmentsOf(s[n..]);
      hide *;
      Cons(segment, more);
      segments := [segment] + more;
      assert s == s[..n] + s[n..];
    }
  }
}
