/**
 * How `autoresponder add` reads its argument `<trigger>, <response> --flag --flag`.
 */
module Autoresponder {
  import opened Common
  import opened Text

  /** A parsed autoresponder: the trigger and response (both stripped) and its three flags. */
  datatype Autoresponse = Autoresponse(trigger: string, response: string, notStrict: bool, deleteTrigger: bool, reply: bool)

  /** `EmptyField`: a trigger or response that strips to nothing; `MissingComma`: the
      `ValueError` raised when the head has no comma to split on. */
  datatype ParseError = EmptyField | MissingComma

  const FlagSeparator: string := " --"

  /** Split the argument on " --"; the head is split at its first comma into trigger and
      response, each stripped; a flag is set when one of the later pieces is exactly its name. */
  function Parse(code: string): (r: Result<Autoresponse, ParseError>)
    ensures r.Success? ==> r.value.trigger != [] && IsStripped(r.value.trigger) && ',' !in r.value.trigger
    ensures r.Success? ==> r.value.response != [] && IsStripped(r.value.response)
    ensures r == Failure(MissingComma) <==> ',' !in SplitOn(code, FlagSeparator)[0]
  {
    var pieces := SplitOn(code, FlagSeparator);
    var params := pieces[1..];
    match SplitOnce(pieces[0], ',')
    case None => Failure(MissingComma)
    case Some((t, rest)) =>
      var trigger := Strip(t);
      var response := Strip(rest);
      if trigger == [] || response == [] then Failure(EmptyField)
      else
        StripKeepsAbsent(t, ',');
        Success(Autoresponse(trigger, response, "not_strict" in params, "delete" in params, "reply" in params))
  }

  /** The head of a split is a prefix of the whole string. */
  lemma {:induction false} JoinStartsWithHead(parts: seq<string>, sep: string)
    requires |parts| >= 1
    ensures |parts[0]| <= |Join(parts, sep)| && Join(parts, sep)[..|parts[0]|] == parts[0]
  {
    if |parts| > 1 {
      assert Join(parts, sep) == parts[0] + (sep + Join(parts[1..], sep));
    }
  }

  /** An argument with no comma anywhere is refused as `ValueError`, whatever its flags. */
  lemma RejectsWithoutComma(code: string)
    requires ',' !in code
    ensures Parse(code) == Failure(MissingComma)
  {
    var pieces := SplitOn(code, FlagSeparator);
    JoinStartsWithHead(pieces, FlagSeparator);
    assert forall k :: 0 <= k < |pieces[0]| ==> pieces[0][k] == code[k];
    assert ',' !in pieces[0];
  }

  /** Once the head has a comma, the argument is refused exactly when the text before that
      comma or the text after it is blank, and then as `EmptyField`; the flags play no part. */
  lemma {:induction false} ParseEmptyFieldIff(code: string, t: string, rest: string)
    requires SplitOnce(SplitOn(code, FlagSeparator)[0], ',') == Some((t, rest))
    ensures Parse(code).Failure? <==> AllSpace(t) || AllSpace(rest)
    ensures Parse(code).Failure? ==> Parse(code).error == EmptyField
  {
    StripEmptyIff(t);
    StripEmptyIff(rest);
  }

  /** The flags as the user types them. */
  function FlagNames(a: Autoresponse): seq<string> {
    (if a.notStrict then ["not_strict"] else [])
    + (if a.deleteTrigger then ["delete"] else [])
    + (if a.reply then ["reply"] else [])
  }

  /** The command argument that creates `a`: `trigger, response --flag ...`. */
  function Render(a: Autoresponse): string {
    Join([a.trigger + ", " + a.response] + FlagNames(a), FlagSeparator)
  }

  /** What `Render` needs of an autoresponder to be read back: both fields non-empty and
      stripped, no comma in the trigger, and no " --" inside the head. */
  predicate Renderable(a: Autoresponse) {
    && a.trigger != [] && IsStripped(a.trigger) && ',' !in a.trigger
    && a.response != [] && IsStripped(a.response)
    && !Contains(a.trigger + ", " + a.response, FlagSeparator)
  }

  /** " --" cannot begin in the last two characters of a piece and run into the separator that
      follows it, so the leftmost occurrence after a separator-free piece is that separator. */
  lemma SplitAfterPiece(x: string, y: string)
    requires !Contains(x, FlagSeparator)
    ensures SplitOn(x + FlagSeparator + y, FlagSeparator) == [x] + SplitOn(y, FlagSeparator)
  {
    var s := x + FlagSeparator + y;
    assert OccursAt(s, FlagSeparator, |x|) by {
      assert s[|x|..|x| + 3] == FlagSeparator;
    }
    forall k: nat | k < |x| ensures !OccursAt(s, FlagSeparator, k) {
      if k + 3 <= |x| {
        assert s[k..k + 3] == x[k..k + 3];
        assert !OccursAt(x, FlagSeparator, k);
      } else if k + 2 == |x| {
        assert s[k + 2] == ' ';
      } else {
        assert s[k + 1] == ' ';
      }
    }
    assert IndexOf(s, FlagSeparator, 0) == Some(|x|);
    assert s[..|x|] == x;
    assert s[|x| + 3..] == y;
  }

  /** Splitting a join of separator-free pieces gives the pieces back. */
  lemma {:induction false} SplitJoin(parts: seq<string>)
    requires |parts| >= 1
    requires forall p :: p in parts ==> !Contains(p, FlagSeparator)
    ensures SplitOn(Join(parts, FlagSeparator), FlagSeparator) == parts
  {
    if |parts| == 1 {
      IndexOfFindsOccurrence(parts[0], FlagSeparator);
    } else {
      assert parts[0] in parts;
      SplitJoin(parts[1..]);
      SplitAfterPiece(parts[0], Join(parts[1..], FlagSeparator));
    }
  }

  lemma FlagNameHasNoSeparator(name: string)
    requires ' ' !in name
    ensures !Contains(name, FlagSeparator)
  {
    forall k: nat ensures !OccursAt(name, FlagSeparator, k) {
      if k + 3 <= |name| {
        assert name[k..k + 3][0] == name[k];
      }
    }
  }

  /** The pieces of a rendered argument are its head and its flag names. */
  lemma RenderPieces(a: Autoresponse)
    requires Renderable(a)
    ensures SplitOn(Render(a), FlagSeparator) == [a.trigger + ", " + a.response] + FlagNames(a)
  {
    var head := a.trigger + ", " + a.response;
    var names := FlagNames(a);
    forall p | p in [head] + names ensures !Contains(p, FlagSeparator) {
      if p != head { FlagNameHasNoSeparator(p); }
    }
    SplitJoin([head] + names);
  }

  /** The head of a rendered argument is cut at the comma that follows the trigger. */
  lemma HeadCut(a: Autoresponse)
    requires Renderable(a)
    ensures SplitOnce(a.trigger + ", " + a.response, ',') == Some((a.trigger, " " + a.response))
  {
    var head := a.trigger + ", " + a.response;
    var cut := SplitOnce(head, ',');
    assert head == a.trigger + [','] + (" " + a.response);
    FirstCutUnique(cut.value.0, cut.value.1, a.trigger, " " + a.response, ',');
  }

  /** The flags read back are the flags rendered. */
  lemma FlagsRoundTrip(a: Autoresponse)
    ensures ("not_strict" in FlagNames(a)) == a.notStrict
    ensures ("delete" in FlagNames(a)) == a.deleteTrigger
    ensures ("reply" in FlagNames(a)) == a.reply
  {
    assert |"not_strict"| == 10 && |"delete"| == 6 && |"reply"| == 5;
  }

  /** Round trip: reading back the argument that renders an autoresponder gives that
      autoresponder, flags included. */
  lemma ParseRender(a: Autoresponse)
    requires Renderable(a)
    ensures Parse(Render(a)) == Success(a)
  {
    var head := a.trigger + ", " + a.response;
    RenderPieces(a);
    HeadCut(a);
    StripOfStripped(a.trigger);
    StripLeadingSpace(' ', a.response);
    StripOfStripped(a.response);
    FlagsRoundTrip(a);
    assert ([head] + FlagNames(a))[1..] == FlagNames(a);
  }

  /** Every argument whose head has a comma is a join of `t + "," + rest` (no comma in `t`)
      with later pieces: the trigger is `t` stripped, the response is `rest` stripped, and each
      flag is set exactly when its name is one of the later pieces, in any order and however
      often; a blank trigger or response is refused. */
  lemma {:induction false} ParseJoin(t: string, rest: string, params: seq<string>)
    requires ',' !in t && !Contains(t + "," + rest, FlagSeparator)
    requires forall p :: p in params ==> !Contains(p, FlagSeparator)
    ensures Parse(Join([t + "," + rest] + params, FlagSeparator)) ==
      if AllSpace(t) || AllSpace(rest) then Failure(EmptyField)
      else Success(Autoresponse(Strip(t), Strip(rest), "not_strict" in params, "delete" in params, "reply" in params))
  {
    var head := t + "," + rest;
    var parts := [head] + params;
    assert forall p :: p in parts ==> p == head || p in params;
    SplitJoin(parts);
    assert parts[1..] == params;
    var cut := SplitOnce(head, ',');
    assert head == t + [','] + rest;
    FirstCutUnique(cut.value.0, cut.value.1, t, rest, ',');
    StripEmptyIff(t);
    StripEmptyIff(rest);
  }
}
