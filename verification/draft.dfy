/** The poll-creation page: a draft (title, description, a list of option
    texts, four settings) edited by the form's handlers, the guard that
    decides whether the draft may be submitted, and the poll record and
    option records a successful submission writes. */
module PollDraft {
  import opened Wrappers
  import opened Text

  datatype Settings = Settings(
    allowMultiple: bool,
    requireLogin: bool,
    showVoterList: bool,
    allowChangeVote: bool)

  datatype Draft = Draft(
    title: string,
    description: string,
    options: seq<string>,
    settings: Settings)

  /** What every draft the form can reach satisfies: at least two option
      rows, and changing one's vote disabled (the form has no switch for it). */
  predicate Invariant(d: Draft) {
    |d.options| >= 2 && !d.settings.allowChangeVote
  }

  /** The state the form opens with: empty title and description, two empty
      options, multiple choice and required login off, the voter list shown,
      vote changes disallowed. The invariant holds, and the draft cannot be
      submitted yet. */
  function Initial(): (d: Draft)
    ensures Invariant(d)
    ensures |d.options| == 2 && forall i :: 0 <= i < |d.options| ==> d.options[i] == ""
    ensures d.title == "" && d.description == ""
    ensures d.settings.showVoterList
    ensures !d.settings.allowMultiple && !d.settings.requireLogin
    ensures Blocked(d)
  {
    Draft("", "", ["", ""], Settings(false, false, true, false))
  }

  /** The "Add Option" button: one empty row at the end; the earlier rows
      and every other field are untouched. */
  function AddOption(d: Draft): (r: Draft)
    ensures |r.options| == |d.options| + 1
    ensures r.options[..|d.options|] == d.options
    ensures r.options[|d.options|] == ""
    ensures r == d.(options := r.options)
    ensures Invariant(d) ==> Invariant(r)
  {
    d.(options := d.options + [""])
  }

  /** `options.filter((_, i) => i !== index)`, the element at position `from`
      of `s` having array index `from`. */
  function DropIndex(s: seq<string>, index: int, from: int): (r: seq<string>)
    ensures |r| == if from <= index < from + |s| then |s| - 1 else |s|
    decreases |s|
  {
    if s == [] then []
    else (if from == index then [] else [s[0]]) + DropIndex(s[1..], index, from + 1)
  }

  /** The index filter removes the one element at `index` when it is in
      range and keeps everything, in order, when it is not. */
  lemma {:induction false} DropIndexSlices(s: seq<string>, index: int, from: int)
    ensures from <= index < from + |s| ==> DropIndex(s, index, from) == s[..index - from] + s[index - from + 1..]
    ensures !(from <= index < from + |s|) ==> DropIndex(s, index, from) == s
    decreases |s|
  {
    if s != [] {
      var rest := DropIndex(s[1..], index, from + 1);
      DropIndexSlices(s[1..], index, from + 1);
      if from == index {
        assert DropIndex(s, index, from) == rest;
        assert s[..0] + s[1..] == s[1..];
      } else {
        assert DropIndex(s, index, from) == [s[0]] + rest;
        if from < index < from + |s| {
          DropInRangeStep(s, index - from);
        } else {
          assert [s[0]] + s[1..] == s;
        }
      }
    }
  }

  /** The index filter only ever drops elements: the result is a
      sub-multiset of its input. */
  lemma DropIndexKeepsOnlyInput(s: seq<string>, index: int, from: int)
    ensures multiset(DropIndex(s, index, from)) <= multiset(s)
  {
    DropIndexSlices(s, index, from);
    if from <= index < from + |s| {
      var j := index - from;
      var before, after := s[..j], s[j + 1..];
      assert DropIndex(s, index, from) == before + after;
      assert s == before + ([s[j]] + after);
      assert multiset(s) == multiset(before) + (multiset([s[j]]) + multiset(after));
    }
  }

  /** Slicing out position `j > 0` of `s` is keeping the head and slicing
      out position `j - 1` of the tail. */
  lemma DropInRangeStep(s: seq<string>, j: int)
    requires 0 < j < |s|
    ensures s[..j] + s[j + 1..] == [s[0]] + (s[1..][..j - 1] + s[1..][j..])
  {
    assert s[..j] == [s[0]] + s[1..][..j - 1];
    assert s[j + 1..] == s[1..][j..];
  }

  /** A row's delete button. With two rows or fewer nothing happens; above
      that, the row at an in-range `index` is removed and the others keep
      their order, while an out-of-range `index` removes nothing. Only the
      option list can change, and at least two rows always remain. */
  function RemoveOption(d: Draft, index: int): (r: Draft)
    ensures |d.options| <= 2 ==> r == d
    ensures |d.options| > 2 && 0 <= index < |d.options| ==>
      r.options == d.options[..index] + d.options[index + 1..]
    ensures !(0 <= index < |d.options|) ==> r == d
    ensures r == d.(options := r.options)
    ensures |r.options| >= 2 <==> |d.options| >= 2
    ensures Invariant(d) ==> Invariant(r)
  {
    if |d.options| > 2 then
      DropIndexSlices(d.options, index, 0);
      d.(options := DropIndex(d.options, index, 0))
    else d
  }

  /** Typing into row `index`: that row becomes `value`, the other rows,
      the number of rows and all other fields stay as they were. */
  function ChangeOption(d: Draft, index: int, value: string): (r: Draft)
    requires 0 <= index < |d.options|
    ensures |r.options| == |d.options|
    ensures r.options[index] == value
    ensures forall j :: 0 <= j < |d.options| && j != index ==> r.options[j] == d.options[j]
    ensures r == d.(options := r.options)
    ensures Invariant(d) ==> Invariant(r)
  {
    d.(options := d.options[index := value])
  }

  /** One user action on the form. */
  datatype Action =
    | SetTitle(title: string)
    | SetDescription(description: string)
    | AddRow
    | RemoveRow(index: int)
    | EditRow(index: int, value: string)
    | SwitchAllowMultiple(on: bool)
    | SwitchRequireLogin(on: bool)
    | SwitchShowVoterList(on: bool)

  /** The actions the rendered form offers: rows are edited through their own
      input, and a row's delete button exists only above two rows. */
  predicate Offered(d: Draft, a: Action) {
    match a
    case RemoveRow(i) => |d.options| > 2 && 0 <= i < |d.options|
    case EditRow(i, _) => 0 <= i < |d.options|
    case _ => true
  }

  function Apply(d: Draft, a: Action): Draft
    requires Offered(d, a)
  {
    match a
    case SetTitle(t) => d.(title := t)
    case SetDescription(s) => d.(description := s)
    case AddRow => AddOption(d)
    case RemoveRow(i) => RemoveOption(d, i)
    case EditRow(i, v) => ChangeOption(d, i, v)
    case SwitchAllowMultiple(b) => d.(settings := d.settings.(allowMultiple := b))
    case SwitchRequireLogin(b) => d.(settings := d.settings.(requireLogin := b))
    case SwitchShowVoterList(b) => d.(settings := d.settings.(showVoterList := b))
  }

  /** Every action of `actions` is offered in the state it is applied to. */
  predicate Playable(d: Draft, actions: seq<Action>)
    decreases |actions|
  {
    actions == [] || (Offered(d, actions[0]) && Playable(Apply(d, actions[0]), actions[1..]))
  }

  function Play(d: Draft, actions: seq<Action>): Draft
    requires Playable(d, actions)
    decreases |actions|
  {
    if actions == [] then d else Play(Apply(d, actions[0]), actions[1..])
  }

  /** Each single action keeps the invariant. */
  lemma ApplyKeepsInvariant(d: Draft, a: Action)
    requires Invariant(d) && Offered(d, a)
    ensures Invariant(Apply(d, a))
  {
  }

  /** Whatever the user does, a draft reached from the opening state keeps
      at least two option rows and never allows vote changes. */
  lemma {:induction false} PlayKeepsInvariant(d: Draft, actions: seq<Action>)
    requires Invariant(d) && Playable(d, actions)
    ensures Invariant(Play(d, actions))
    decreases |actions|
  {
    if actions != [] {
      ApplyKeepsInvariant(d, actions[0]);
      PlayKeepsInvariant(Apply(d, actions[0]), actions[1..]);
    }
  }

  lemma ReachableDraftsKeepInvariant(actions: seq<Action>)
    requires Playable(Initial(), actions)
    ensures |Play(Initial(), actions).options| >= 2
    ensures !Play(Initial(), actions).settings.allowChangeVote
  {
    PlayKeepsInvariant(Initial(), actions);
  }

  // ---------------------------------------------------------------------
  // Submission

  /** The submission guard: a blank title (after trimming) or any blank
      option row stops creation, that is, a title or a row made only of
      whitespace. */
  predicate Blocked(d: Draft)
    ensures Blocked(d) <==> AllWhitespace(d.title) || exists i :: 0 <= i < |d.options| && AllWhitespace(d.options[i])
  {
    BlankIffAllWhitespace(d.title);
    assert forall i :: 0 <= i < |d.options| ==> (IsBlank(d.options[i]) <==> AllWhitespace(d.options[i])) by {
      forall i | 0 <= i < |d.options| ensures IsBlank(d.options[i]) <==> AllWhitespace(d.options[i]) {
        BlankIffAllWhitespace(d.options[i]);
      }
    }
    IsBlank(d.title) || exists i :: 0 <= i < |d.options| && IsBlank(d.options[i])
  }

  /** The "Create & Open" button is disabled while a submission is in flight
      and whenever the title or some row is only whitespace. */
  predicate SubmitDisabled(isLoading: bool, d: Draft)
    ensures SubmitDisabled(isLoading, d) <==> isLoading || AllWhitespace(d.title) || exists i :: 0 <= i < |d.options| && AllWhitespace(d.options[i])
  {
    isLoading || Blocked(d)
  }

  /** The signed-in user as the identity provider describes them; `fullName`
      and `username` may be null. */
  datatype User = User(id: string, fullName: Option<string>, username: Option<string>, imageUrl: string)

  /** JavaScript truthiness of a nullable string. */
  predicate Truthy(s: Option<string>) {
    s.Some? && s.value != []
  }

  /** `user?.fullName || user?.username || "Anonymous"`: the first truthy
      name, so a null or empty full name falls through to the username and
      then to "Anonymous". The result is never empty. */
  function CreatorName(user: Option<User>): (name: string)
    ensures name != []
    ensures user.Some? && Truthy(user.value.fullName) ==> name == user.value.fullName.value
    ensures user.Some? && !Truthy(user.value.fullName) && Truthy(user.value.username) ==> name == user.value.username.value
    ensures user.None? || (!Truthy(user.value.fullName) && !Truthy(user.value.username)) ==> name == "Anonymous"
  {
    match user
    case None => "Anonymous"
    case Some(u) =>
      if Truthy(u.fullName) then u.fullName.value
      else if Truthy(u.username) then u.username.value
      else "Anonymous"
  }

  /** The poll document written on creation (the server timestamp is not
      modelled). */
  datatype PollRecord = PollRecord(
    title: string,
    description: string,
    creatorId: Option<string>,
    creatorName: string,
    creatorAvatar: Option<string>,
    isOpen: bool,
    totalVotes: int,
    settings: Settings)

  /** One document of the poll's `options` sub-collection. */
  datatype OptionRecord = OptionRecord(text: string, count: int)

  datatype Creation = Creation(poll: PollRecord, options: seq<OptionRecord>)

  function SumCounts(os: seq<OptionRecord>): int {
    if os == [] then 0 else os[0].count + SumCounts(os[1..])
  }

  /** The batch of option documents: one per row, each with the row's text
      and a zero count, so the counts sum to zero. The sequence follows the
      order in which the batch sets them; the stored documents carry no
      position. */
  function OptionRecords(rows: seq<string>): (os: seq<OptionRecord>)
    ensures |os| == |rows|
    ensures forall i :: 0 <= i < |rows| ==> os[i] == OptionRecord(rows[i], 0)
    ensures SumCounts(os) == 0
  {
    if rows == [] then []
    else
      var tail := OptionRecords(rows[1..]);
      assert ([OptionRecord(rows[0], 0)] + tail)[1..] == tail;
      [OptionRecord(rows[0], 0)] + tail
  }

  /** Submitting a draft. Nothing is written when the guard blocks it;
      otherwise an open poll with no votes, carrying the draft's title,
      description and settings and the user's identity, together with one
      zero-count option record per row, so that the option counts
      add up to the poll's vote total. */
  function Create(d: Draft, user: Option<User>): (r: Option<Creation>)
    ensures r.None? <==> Blocked(d)
    ensures r.Some? ==> r.value.poll.isOpen && r.value.poll.totalVotes == 0
    ensures r.Some? ==> r.value.poll.title == d.title && r.value.poll.description == d.description
    ensures r.Some? ==> r.value.poll.settings == d.settings
    ensures r.Some? ==> r.value.poll.creatorName == CreatorName(user)
    ensures r.Some? && user.Some? ==> r.value.poll.creatorId == Some(user.value.id) && r.value.poll.creatorAvatar == Some(user.value.imageUrl)
    ensures r.Some? && user.None? ==> r.value.poll.creatorId.None? && r.value.poll.creatorAvatar.None?
    ensures r.Some? ==> |r.value.options| == |d.options|
    ensures r.Some? ==> forall i :: 0 <= i < |d.options| ==> r.value.options[i].text == d.options[i] && r.value.options[i].count == 0
    ensures r.Some? ==> SumCounts(r.value.options) == r.value.poll.totalVotes
    ensures r.Some? ==> !IsBlank(r.value.poll.title) && forall i :: 0 <= i < |r.value.options| ==> !IsBlank(r.value.options[i].text)
  {
    if Blocked(d) then None
    else
      var poll := PollRecord(
        d.title, d.description,
        if user.Some? then Some(user.value.id) else None,
        CreatorName(user),
        if user.Some? then Some(user.value.imageUrl) else None,
        true, 0, d.settings);
      Some(Creation(poll, OptionRecords(d.options)))
  }

  /** When no submission is in flight, the button is disabled exactly when
      submitting would write nothing. */
  lemma ButtonMatchesGuard(d: Draft, user: Option<User>)
    ensures SubmitDisabled(false, d) <==> Create(d, user).None?
  {
  }

  /** A row holding only whitespace blocks creation, whoever submits and
      whatever the title and the other rows hold. */
  lemma WhitespaceRowBlocks(d: Draft, user: Option<User>, i: int)
    requires 0 <= i < |d.options| && AllWhitespace(d.options[i])
    ensures Create(d, user).None?
  {
    BlankIffAllWhitespace(d.options[i]);
  }
}
