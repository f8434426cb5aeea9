/** The "join by poll ID" form on the home page. */
module Join {
  import opened Wrappers
  import opened Text

  /** What submitting the form does: whether the browser's own submission is
      suppressed, and the path navigated to, if any (at most one). */
  datatype Outcome = Outcome(preventDefault: bool, navigateTo: Option<string>)

  /** Submitting the form: the default submission is always suppressed; the
      page navigates exactly when the input has a non-whitespace character,
      and then to `/poll/` followed by the input as typed, surrounding
      whitespace included. */
  function HandleJoin(pollId: string): (o: Outcome)
    ensures o.preventDefault
    ensures o.navigateTo.Some? <==> exists k :: 0 <= k < |pollId| && !IsWhitespace(pollId[k])
    ensures o.navigateTo.Some? ==> |o.navigateTo.value| == 6 + |pollId| && o.navigateTo.value[..6] == "/poll/" && o.navigateTo.value[6..] == pollId
  {
    if !IsBlank(pollId) then Outcome(true, Some("/poll/" + pollId))
    else Outcome(true, None)
  }

  /** The target keeps the spaces the guard ignored: an ID typed with a
      leading space navigates to a path that differs from the trimmed one. */
  lemma TargetIsUntrimmed(id: string)
    requires id != [] && !IsWhitespace(id[0]) && !IsWhitespace(id[|id| - 1])
    ensures HandleJoin(" " + id).navigateTo == Some("/poll/ " + id)
    ensures Trim(" " + id) == id
    ensures HandleJoin(" " + id).navigateTo != Some("/poll/" + Trim(" " + id))
  {
    var s := " " + id;
    assert s[1..] == id;
    assert LeadingWhitespace(id) == 0;
    assert LeadingWhitespace(s) == 1;
    assert TrailingWhitespace(id) == 0;
    assert s[1..|s|] == id;
    assert "/poll/" + s == "/poll/ " + id;
    assert ("/poll/ " + id)[6] == ' ';
    assert |"/poll/" + id| < |"/poll/ " + id|;
  }
}
