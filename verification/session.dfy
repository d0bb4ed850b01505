/** The web front end's session state: the four keys one analysis stores, and the
    "New Meeting" button that clears them again. */
module Session {
  import Minutes
  import Title

  /** What a session key holds: a text (minutes, transcript, title) or the parsed minutes. */
  datatype SessionValue = Text(text: string) | Data(data: Minutes.MinutesData)

  const MinutesKey := "minutes"
  const TranscriptKey := "transcript"
  const ProcessedKey := "processed_data"
  const TitleKey := "current_title"

  /** The keys an analysis writes and "New Meeting" deletes, in the order they are deleted. */
  const ResultKeys: seq<string> := [MinutesKey, TranscriptKey, ProcessedKey, TitleKey]

  /** The four result keys are different strings. */
  lemma KeysDistinct()
    ensures MinutesKey != TranscriptKey && MinutesKey != ProcessedKey && MinutesKey != TitleKey
    ensures TranscriptKey != ProcessedKey && TranscriptKey != TitleKey && ProcessedKey != TitleKey
  {
    assert MinutesKey[0] == 'm' && TranscriptKey[0] == 't' && ProcessedKey[0] == 'p';
    assert TitleKey[0] == 'c';
  }

  /** The session with every result key removed and every other key as it was. */
  function Cleared(state: map<string, SessionValue>): (r: map<string, SessionValue>)
    ensures forall k :: k in ResultKeys ==> k !in r
    ensures forall k :: k !in ResultKeys ==> (k in r <==> k in state)
    ensures forall k :: k in r ==> r[k] == state[k]
  {
    state - set k | k in ResultKeys
  }

  /** The session after an analysis stored `minutes`, the `transcript` they were generated
      from, the parsed minutes `processed` and the resolved `title`. */
  function Stored(state: map<string, SessionValue>, minutes: string, transcript: string,
                  processed: Minutes.MinutesData, title: string): (r: map<string, SessionValue>)
    ensures forall k :: k !in ResultKeys ==> (k in r <==> k in state)
    ensures forall k :: k in r && k !in ResultKeys ==> r[k] == state[k]
    ensures MinutesKey in r && r[MinutesKey] == Text(minutes)
    ensures TranscriptKey in r && r[TranscriptKey] == Text(transcript)
    ensures ProcessedKey in r && r[ProcessedKey] == Data(processed)
    ensures TitleKey in r && r[TitleKey] == Text(title)
  {
    KeysDistinct();
    state[MinutesKey := Text(minutes)][TranscriptKey := Text(transcript)]
         [ProcessedKey := Data(processed)][TitleKey := Text(title)]
  }

  /** The session after analysing `minutes` at `timestamp`. */
  function Analyzed(state: map<string, SessionValue>, minutes: string, transcript: string,
                    timestamp: string): (r: map<string, SessionValue>)
    ensures !ShowsUpload(r) && Cleared(r) == Cleared(state)
  {
    ClearedAfterStored(state, minutes, transcript, Minutes.MinutesOf(minutes),
                       Title.TitleOf(minutes, timestamp));
    Stored(state, minutes, transcript, Minutes.MinutesOf(minutes), Title.TitleOf(minutes, timestamp))
  }

  /** The page shows the upload form exactly when no minutes are stored. */
  predicate ShowsUpload(state: map<string, SessionValue>) {
    MinutesKey !in state
  }

  /** "New Meeting" after an analysis gives back the session as it was, minus old results. */
  lemma ClearedAfterStored(state: map<string, SessionValue>, minutes: string, transcript: string,
                           processed: Minutes.MinutesData, title: string)
    ensures Cleared(Stored(state, minutes, transcript, processed, title)) == Cleared(state)
    ensures ShowsUpload(Cleared(Stored(state, minutes, transcript, processed, title)))
    ensures !ShowsUpload(Stored(state, minutes, transcript, processed, title))
  {
    var a := Cleared(Stored(state, minutes, transcript, processed, title));
    var b := Cleared(state);
    assert forall k :: k in a <==> k in b;
  }

  /** Clearing twice is clearing once. */
  lemma ClearedIdempotent(state: map<string, SessionValue>)
    ensures Cleared(Cleared(state)) == Cleared(state)
  {
    var a := Cleared(Cleared(state));
    assert forall k :: k in a <==> k in Cleared(state);
  }

  /** The browser session: a mutable map from key to value. */
  class SessionState {
    var state: map<string, SessionValue>

    /** A fresh session holds nothing, so the upload form is shown. */
    constructor ()
      ensures state == map[]
    {
      state := map[];
    }

    /** The "New Meeting" button: deletes each result key that is present. */
    method NewMeeting()
      modifies this
      ensures state == Cleared(old(state))
    {
      var i := 0;
      while i < |ResultKeys|
        invariant 0 <= i <= |ResultKeys|
        invariant state == old(state) - set k | k in ResultKeys[..i]
      {
        var key := ResultKeys[i];
        if key in state {
          state := state - {key};
        }
        assert ResultKeys[..i + 1] == ResultKeys[..i] + [key];
        i := i + 1;
      }
      assert ResultKeys[..i] == ResultKeys;
    }

    /** A successful analysis stores the minutes, the transcript, the parsed minutes and the
        resolved title. */
    method Analyze(minutes: string, transcript: string, timestamp: string)
      modifies this
      ensures state == Analyzed(old(state), minutes, transcript, timestamp)
    {
      var processed := Minutes.ParseMarkdownToData(minutes);
      var title := Title.ResolveTitle(minutes, timestamp);
      state := state[MinutesKey := Text(minutes)];
      state := state[TranscriptKey := Text(transcript)];
      state := state[ProcessedKey := Data(processed)];
      state := state[TitleKey := Text(title)];
    }
  }
}
