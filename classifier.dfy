/**
 * The cell status classifier: a calendar cell's CSS class attribute is split
 * on whitespace and the tokens are matched, first match wins, against the
 * style markers the booking widget uses.
 */
module Classifier {

  import Text

  datatype Status = Available | AlmostFull | Booked | NotOpen

  /** The status strings stored in the availability dictionary. */
  function Name(s: Status): (name: string) {
    match s
    case Available => "AVAILABLE"
    case AlmostFull => "ALMOST_FULL"
    case Booked => "BOOKED"
    case NotOpen => "NOT_OPEN"
  }

  /** Distinct statuses are reported under distinct names. */
  lemma NameInjective(a: Status, b: Status)
    ensures Name(a) == Name(b) ==> a == b
  {
  }

  predicate HasAvailablePair(classes: seq<string>) {
    "m01" in classes && "m01_col" in classes
  }

  predicate HasAlmostFullPair(classes: seq<string>) {
    "m02" in classes && "m02_col" in classes
  }

  predicate IsMarker(token: string) {
    token in {"m01", "m01_col", "m02", "m02_col", "m03"}
  }

  /** The ordered decision table over the class tokens of one cell. */
  function Classify(classes: seq<string>): (s: Status)
    ensures s == Available <==> HasAvailablePair(classes)
    ensures s == AlmostFull <==> !HasAvailablePair(classes) && HasAlmostFullPair(classes)
    ensures s == Booked <==> !HasAvailablePair(classes) && !HasAlmostFullPair(classes) && "m03" in classes
    ensures s == NotOpen <==> !HasAvailablePair(classes) && !HasAlmostFullPair(classes) && "m03" !in classes
  {
    if "m01" in classes && "m01_col" in classes then Available
    else if "m02" in classes && "m02_col" in classes then AlmostFull
    else if "m03" in classes then Booked
    else NotOpen
  }

  /** `parse_availability_status`: classify the whitespace-split class attribute. */
  function ParseAvailabilityStatus(classAttribute: string): (s: Status)
    ensures var classes := Text.Split(classAttribute);
      (s == Available <==> HasAvailablePair(classes)) &&
      (s == AlmostFull <==> !HasAvailablePair(classes) && HasAlmostFullPair(classes)) &&
      (s == Booked <==> !HasAvailablePair(classes) && !HasAlmostFullPair(classes) && "m03" in classes) &&
      (s == NotOpen <==> !HasAvailablePair(classes) && !HasAlmostFullPair(classes) && "m03" !in classes)
  {
    Classify(Text.Split(classAttribute))
  }

  /** Tokens that are not markers never change the status, wherever they are added. */
  lemma UnknownTokensIgnored(classes: seq<string>, extra: seq<string>)
    requires forall t :: t in extra ==> !IsMarker(t)
    ensures Classify(classes + extra) == Classify(classes)
    ensures Classify(extra + classes) == Classify(classes)
  {
    assert forall t :: t in classes + extra <==> t in classes || t in extra;
    assert forall t :: t in extra + classes <==> t in classes || t in extra;
  }

  /**
   * Membership is exact on whitespace-separated tokens: the attribute
   * `tokens` joined by spaces is classified as the tokens themselves, so a
   * token such as "m01x" is not "m01".
   */
  lemma ExactTokens(tokens: seq<string>)
    requires forall t :: t in tokens ==> Text.IsToken(t)
    ensures ParseAvailabilityStatus(Text.JoinWith(tokens, " ")) == Classify(tokens)
  {
    Text.SplitJoinWith(tokens);
  }

  /** The two calendar class attributes used below, split into their tokens. */
  lemma MarkedCellTokens()
    ensures Text.Split("mark m01 m01_col") == ["mark", "m01", "m01_col"]
    ensures Text.Split("mark m01x m01_col") == ["mark", "m01x", "m01_col"]
  {
    assert Text.IsToken("mark") && Text.IsToken("m01") && Text.IsToken("m01x") && Text.IsToken("m01_col");
    assert "mark m01 m01_col" == "mark" + " " + "m01" + " " + "m01_col";
    assert "mark m01x m01_col" == "mark" + " " + "m01x" + " " + "m01_col";
    Text.SplitThreeTokens("mark", "m01", "m01_col");
    Text.SplitThreeTokens("mark", "m01x", "m01_col");
  }

  /** A cell rendered as "mark m01 m01_col" is available: its tokens include both "m01" markers. */
  lemma AvailableCellExample()
    ensures ParseAvailabilityStatus("mark m01 m01_col") == Available
  {
    MarkedCellTokens();
  }

  /**
   * "m01", "m02" and "m03", which every status but NOT_OPEN needs, have three
   * characters: tokens none of which has three characters classify as NOT_OPEN.
   */
  lemma NoShortTokenIsNotOpen(classes: seq<string>)
    requires forall i :: 0 <= i < |classes| ==> |classes[i]| != 3
    ensures Classify(classes) == NotOpen
  {
    assert |"m01"| == 3 && |"m02"| == 3 && |"m03"| == 3;
  }

  /** Cells rendered as "mark m01x m01_col" are not available: "m01x" is a different token. */
  lemma SuffixedMarkerIsNotMarker()
    ensures ParseAvailabilityStatus("mark m01x m01_col") == NotOpen
  {
    var tokens := ["mark", "m01x", "m01_col"];
    assert |tokens[0]| == 4 && |tokens[1]| == 4 && |tokens[2]| == 7;
    NoShortTokenIsNotOpen(tokens);
    MarkedCellTokens();
  }

}
