/**
 * The paging logic of the Discord channel reader (DiscordtoJson.py). The
 * network fetch is a parameter: `fetch` for a single request, and for the
 * full walk the sequence of pages the server returns for skip 0, 25, 50, ...
 */
module DiscordToJson {
  import opened Wrappers
  import opened Text
  import opened Paging

  const ChannelContentPreApi := "https://kemono.party/api/discord/channel/"
  const ChannelContentSufApi := "?skip="
  const SkipIncrement := 25

  /** The request URL: prefix, channel id, "?skip=", decimal skip. */
  function ChannelUrl(channelID: string, skip: nat): (url: string)
    ensures ChannelContentPreApi <= url
    ensures IsSuffix(NatToString(skip), url)
  {
    ChannelContentPreApi + channelID + ChannelContentSufApi + NatToString(skip)
  }

  /** Python truth of the channel argument: both None and "" are false. */
  predicate Given(channelID: Option<string>) {
    channelID.Some? && channelID.value != ""
  }

  /** The `recent` dictionary: the channel last read and the skip of its next window. */
  datatype History = History(channelID: string, skip: nat)

  /** A request: which channel, at which skip. */
  datatype Request = Request(channelID: string, skip: nat)

  /**
   * One call of `discord_channel_lookup` on the history: the request it makes
   * and the history it leaves, or None when it fails its assertion (no channel
   * and no history).
   */
  function Transition(recent: Option<History>, channelID: Option<string>): (t: Option<(Request, History)>)
    ensures t.None? <==> !Given(channelID) && recent.None?
    ensures t.Some? ==> t.value.1 == History(t.value.0.channelID, t.value.0.skip + SkipIncrement)
    ensures t.Some? && !Given(channelID) ==>
      t.value.0 == Request(recent.value.channelID, recent.value.skip)
    ensures t.Some? && Given(channelID) ==> t.value.0.channelID == channelID.value
    ensures t.Some? && Given(channelID) && recent.Some? && recent.value.channelID == channelID.value ==>
      t.value.0.skip == recent.value.skip
    ensures t.Some? && Given(channelID) && (recent.None? || recent.value.channelID != channelID.value) ==>
      t.value.0.skip == 0
  {
    if !Given(channelID) then
      if recent.None? then None
      else Some((Request(recent.value.channelID, recent.value.skip),
                 History(recent.value.channelID, recent.value.skip + SkipIncrement)))
    else if recent.Some? && recent.value.channelID == channelID.value then
      Some((Request(channelID.value, recent.value.skip), History(channelID.value, recent.value.skip + SkipIncrement)))
    else
      Some((Request(channelID.value, 0), History(channelID.value, SkipIncrement)))
  }

  /** A history whose skip is a whole number of windows. */
  predicate Aligned(recent: Option<History>) {
    recent.Some? ==> recent.value.skip % SkipIncrement == 0
  }

  /** Every call keeps the stored skip a multiple of 25. */
  lemma TransitionAligned(recent: Option<History>, channelID: Option<string>)
    requires Aligned(recent) && Transition(recent, channelID).Some?
    ensures Aligned(Some(Transition(recent, channelID).value.1))
    ensures Transition(recent, channelID).value.0.skip % SkipIncrement == 0
  {
  }

  /** The skips requested by a sequence of calls, or None if one of them fails its assertion. */
  function Skips(recent: Option<History>, calls: seq<Option<string>>): Option<seq<nat>>
    decreases |calls|
  {
    if calls == [] then Some([])
    else match Transition(recent, calls[0])
      case None => None
      case Some((req, next)) =>
        match Skips(Some(next), calls[1..])
        case None => None
        case Some(rest) => Some([req.skip] + rest)
  }

  /** `n` calls without a channel id continue from the stored skip, one window further each time. */
  lemma {:induction false} ContinuedCalls(id: string, skip: nat, n: nat)
    ensures Skips(Some(History(id, skip)), seq(n, _ => None)) ==
            Some(seq(n, i => skip + SkipIncrement * i))
    decreases n
  {
    if n > 0 {
      var calls: seq<Option<string>> := seq(n, _ => None);
      assert calls[0] == None;
      assert calls[1..] == seq(n - 1, _ => None);
      assert Transition(Some(History(id, skip)), None) ==
        Some((Request(id, skip), History(id, skip + SkipIncrement)));
      ContinuedCalls(id, skip + SkipIncrement, n - 1);
      var rest := seq(n - 1, i => skip + SkipIncrement + SkipIncrement * i);
      assert rest == seq(n - 1, i => (skip + SkipIncrement) + SkipIncrement * i);
      assert Skips(Some(History(id, skip)), calls) == Some([skip] + rest);
      assert [skip] + rest == seq(n, i => skip + SkipIncrement * i);
    } else {
      assert seq<Option<string>>(n, _ => None) == [];
      assert seq(n, i => skip + SkipIncrement * i) == [];
    }
  }

  /** A first call with a channel id and then `n` calls without one request skips 0, 25, ..., 25n. */
  lemma FirstThenContinued(id: string, n: nat)
    requires id != ""
    ensures Skips(None, [Some(id)] + seq(n, _ => None)) == Some(seq(n + 1, i => SkipIncrement * i))
  {
    var calls := [Some(id)] + seq(n, _ => None);
    assert calls[1..] == seq(n, _ => None);
    ContinuedCalls(id, SkipIncrement, n);
    assert [0] + seq(n, i => SkipIncrement + SkipIncrement * i) == seq(n + 1, i => SkipIncrement * i);
  }

  /** The outcome of `discord_channel_lookup`: an assertion failure, or the URL fetched and what it returned. */
  datatype Lookup<J> = AssertionError | Fetched(url: string, js: J)

  class DiscordToJson {
    var recent: Option<History>

    ghost predicate Valid()
      reads this
    {
      Aligned(recent)
    }

    constructor()
      ensures Valid() && recent == None
    {
      recent := None;
    }

    /**
     * `discord_channel_lookup`: reads the next window of a channel. Without a
     * channel id it continues the channel of the history; with the history's id
     * it continues too; with another id it starts that channel from skip 0.
     */
    method ChannelLookup<J>(channelID: Option<string>, fetch: string -> J) returns (r: Lookup<J>)
      requires Valid()
      modifies this
      ensures Valid()
      ensures Transition(old(recent), channelID).None? ==> r == AssertionError && recent == old(recent)
      ensures Transition(old(recent), channelID).Some? ==>
        var (req, next) := Transition(old(recent), channelID).value;
        recent == Some(next) &&
        r == Fetched(ChannelUrl(req.channelID, req.skip), fetch(ChannelUrl(req.channelID, req.skip)))
    {
      if !Given(channelID) && recent.None? {
        return AssertionError;
      }
      if recent.None? {
        recent := Some(History(channelID.value, 0));
      }
      var id: string;
      var skip: nat;
      if !Given(channelID) || channelID.value == recent.value.channelID {
        skip := recent.value.skip;
        recent := Some(History(recent.value.channelID, skip + SkipIncrement));
        id := recent.value.channelID;
      } else {
        skip := 0;
        id := channelID.value;
        recent := Some(History(id, skip + SkipIncrement));
      }
      var url := ChannelContentPreApi + id + ChannelContentSufApi + NatToString(skip);
      r := Fetched(url, fetch(url));
    }
  }

  /**
   * `discord_lookup_all`: requests skip 0, 25, 50, ... and appends every
   * non-empty page, stopping at the first empty one. `pages[k]` is what the
   * request with skip 25k returns. Returns the items and the requests made.
   */
  method LookupAll<J>(channelID: string, pages: seq<seq<J>>) returns (jsBuff: seq<J>, requested: seq<string>)
    ensures jsBuff == Flatten(pages[..FirstEmpty(pages)])
    ensures |requested| == FirstEmpty(pages) + 1
    ensures forall k :: 0 <= k < |requested| ==> requested[k] == ChannelUrl(channelID, SkipIncrement * k)
  {
    var skip := 0;
    var done := false;
    jsBuff := [];
    requested := [];
    var k := 0;  // the number of the request, which selects the page the server returns
    while !done
      invariant k <= FirstEmpty(pages)
      invariant skip == SkipIncrement * k
      invariant jsBuff == Flatten(pages[..k])
      invariant !done ==> |requested| == k
      invariant done ==> |requested| == k + 1 && k == FirstEmpty(pages)
      invariant forall j :: 0 <= j < |requested| ==> requested[j] == ChannelUrl(channelID, SkipIncrement * j)
      decreases |pages| - k + (if done then 0 else 1)
    {
      var url := ChannelContentPreApi + channelID + ChannelContentSufApi + NatToString(skip);
      requested := requested + [url];
      var js := PageAt(pages, k);
      if |js| > 0 {
        FlattenStep(pages, k);
        jsBuff := jsBuff + js;
        skip := skip + SkipIncrement;
        k := k + 1;
      } else {
        done := true;
      }
    }
  }
}
