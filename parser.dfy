/**
  The accessibility-label parser `extract_message_info`, the same in all four
  versions of the extractor: a label is "sender, content, ..., <phrase> à <time>".
*/
module MessageParser {
  import opened Wrappers
  import opened Strings

  /** The separator between the fields of a label. */
  const Comma: string := ", "
  /** The French time preposition that precedes the clock time in the last field. */
  const At: string := " à "

  /** The three fields the parser returns when it succeeds. */
  datatype Fields = Fields(name: string, content: string, time: string)

  /** The last `", "`-part of a label. */
  function LastPart(ariaLabel: string): string
  {
    Last(Split(ariaLabel, Comma))
  }

  /**
    `extract_message_info`: fewer than three `", "`-parts give `None`; otherwise the
    first part is the sender, the middle parts re-joined with `", "` are the content,
    and the last `" à "`-piece of the last part is the time.
  */
  function Parse(ariaLabel: string): Option<Fields>
  {
    var parts := Split(ariaLabel, Comma);
    if |parts| >= 3 then
      Some(Fields(parts[0], Join(parts[1..|parts| - 1], Comma), Last(Split(parts[|parts| - 1], At))))
    else
      None
  }

  /** Formats three fields the way the client writes a label. */
  function Format(f: Fields): string
  {
    f.name + Comma + f.content + Comma + f.time
  }

  lemma CommaIsBorderless()
    ensures Borderless(Comma)
  {
    assert Comma[..1] == [','] && Comma[1..] == [' '];
  }

  /** Parsing fails exactly when the label does not hold two separate `", "`. */
  lemma ParseNoneIff(ariaLabel: string)
    ensures Parse(ariaLabel).None? <==> !OccursTwice(ariaLabel, Comma)
  {
    SplitThreeIff(ariaLabel, Comma);
  }

  /** The empty label and every label without `", "` are rejected. */
  lemma ParseRejectsUnseparated(ariaLabel: string)
    requires !Contains(ariaLabel, Comma)
    ensures Parse(ariaLabel) == None
  {
    SplitSingleIff(ariaLabel, Comma);
  }

  /** Sender, content and the last part, re-joined with `", "`, give back the label. */
  lemma ParseRoundTrip(ariaLabel: string)
    requires Parse(ariaLabel).Some?
    ensures var f := Parse(ariaLabel).value;
      ariaLabel == f.name + Comma + f.content + Comma + LastPart(ariaLabel)
  {
    JoinSplit(ariaLabel, Comma);
    JoinOuter(Split(ariaLabel, Comma), Comma);
  }

  /**
    The sender holds no `", "`; the time is a suffix of the label and holds neither
    `", "` nor `" à "`.
  */
  lemma ParseFieldShapes(ariaLabel: string)
    requires Parse(ariaLabel).Some?
    ensures var f := Parse(ariaLabel).value;
      && !Contains(f.name, Comma)
      && !Contains(f.time, Comma)
      && !Contains(f.time, At)
      && IsSuffix(f.time, ariaLabel)
  {
    var f := Parse(ariaLabel).value;
    var parts := Split(ariaLabel, Comma);
    var tail := LastPart(ariaLabel);
    SplitPartsAvoidSep(ariaLabel, Comma);
    assert parts[0] in parts && tail in parts;
    var pieces := Split(tail, At);
    SplitPartsAvoidSep(tail, At);
    assert f.time == Last(pieces) && Last(pieces) in pieces;
    JoinSplit(tail, At);
    JoinEndsWithLast(pieces, At);
    SuffixAvoids(f.time, tail, Comma);
    ParseRoundTrip(ariaLabel);
    assert IsSuffix(tail, ariaLabel);
  }

  /**
    A label formatted from a sender without `", "` and a last field without `", "`
    parses back to the same sender and content, whatever the content holds, and to the
    last `" à "`-piece of the last field as the time.
  */
  lemma ParseFormat(f: Fields)
    requires !Contains(f.name, Comma) && !Contains(f.time, Comma)
    ensures Parse(Format(f)) == Some(Fields(f.name, f.content, Last(Split(f.time, At))))
  {
    CommaIsBorderless();
    var ariaLabel := Format(f);
    assert ariaLabel == f.name + Comma + (f.content + Comma + f.time);
    SplitAround(f.name, f.content + Comma + f.time, Comma);
    SplitAround(f.content, f.time, Comma);
    SplitSingleIff(f.name, Comma);
    SplitSingleIff(f.time, Comma);
    var mid := Split(f.content, Comma);
    var parts := Split(ariaLabel, Comma);
    assert parts == [f.name] + mid + [f.time];
    assert parts[1..|parts| - 1] == mid;
    JoinSplit(f.content, Comma);
  }

  /** `Parse` inverts `Format` on fields whose time holds neither `", "` nor `" à "`. */
  lemma ParseFormatInverse(f: Fields)
    requires !Contains(f.name, Comma) && !Contains(f.time, Comma) && !Contains(f.time, At)
    ensures Parse(Format(f)) == Some(f)
  {
    ParseFormat(f);
    SplitSingleIff(f.time, At);
  }

  /** A French label: the phrase before `" à "` is dropped from the time. */
  lemma ParseExample()
    ensures Parse("Alice, Hello, there, envoyé à 14:32") == Some(Fields("Alice", "Hello, there", "14:32"))
  {
    var f := Fields("Alice", "Hello, there", "envoyé à 14:32");
    assert Format(f) == "Alice, Hello, there, envoyé à 14:32";
    AvoidsFirstChar("Alice", Comma);
    AvoidsFirstChar(f.time, Comma);
    AvoidsFirstChar("14:32", At);
    assert f.time == "envoyé" + At + "14:32";
    SplitOnce("envoyé", "14:32", At);
    ParseFormat(f);
  }
}
