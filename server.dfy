/**
 * The HTTP side of the server: the allowed-origins list and the two session endpoints.
 * The Session collection is a map from code to record; the random source behind a new code
 * and the clock are parameters.
 */
module Server {
  import opened Wrappers
  import opened Strings
  import opened SessionModel

  const DefaultOrigins: seq<string> := ["http://localhost:5173", "http://127.0.0.1:5173"]
  const SessionNotFound := "Session not found"

  /** A comma-separated origin list: split on ",", trim each piece, drop empty pieces. */
  function ParseOrigins(value: string): (r: seq<string>)
    ensures forall k :: 0 <= k < |r| ==> r[k] != "" && IsTrimmed(r[k]) && ',' !in r[k]
    ensures forall x :: x in r <==> x != "" && exists j :: 0 <= j < |Split(value, ',')| && Trim(Split(value, ',')[j]) == x
  {
    var parts := Split(value, ',');
    var r := TrimNonBlank(parts);
    forall x ensures x in r <==> x != "" && exists j :: 0 <= j < |parts| && Trim(parts[j]) == x {
      TrimNonBlankMembers(parts, x);
    }
    forall k | 0 <= k < |r| ensures ',' !in r[k] {
      TrimNonBlankMembers(parts, r[k]);
      var j :| 0 <= j < |parts| && Trim(parts[j]) == r[k];
      TrimKeepsAbsent(parts[j], ',');
    }
    r
  }

  /** Joining clean origins with commas and parsing the result gives them back. */
  lemma ParseJoinedOrigins(origins: seq<string>)
    requires |origins| >= 1
    requires forall k :: 0 <= k < |origins| ==> origins[k] != "" && IsTrimmed(origins[k]) && ',' !in origins[k]
    ensures ParseOrigins(Join(origins, ',')) == origins
  {
    SplitJoin(origins, ',');
    TrimNonBlankOfClean(origins);
  }

  /** The allowed origins: the parsed variable when it is set and non-empty, the two local
      development origins otherwise. A variable of only commas and blanks allows nothing. */
  function AllowedOrigins(clientOrigins: Option<string>): (r: seq<string>)
    ensures clientOrigins.None? || clientOrigins == Some("") ==> r == DefaultOrigins
    ensures clientOrigins.Some? && clientOrigins.value != "" ==> r == ParseOrigins(clientOrigins.value)
  {
    if clientOrigins.Some? && clientOrigins.value != "" then ParseOrigins(clientOrigins.value) else DefaultOrigins
  }

  /** A variable made only of commas and blanks is set, so the defaults do not apply, and it
      allows no origin at all. */
  lemma BlankOriginsAllowNone()
    ensures AllowedOrigins(Some(", ,")) == []
  {
  }

  /** `s.substring(lo, hi)` for `lo <= hi`: both ends are clamped to the string. */
  function Substring(s: string, lo: nat, hi: nat): (r: string)
    requires lo <= hi
    ensures |r| <= hi - lo
    ensures lo <= |s| ==> r == s[lo..if hi <= |s| then hi else |s|]
    ensures lo > |s| ==> r == ""
  {
    if lo > |s| then "" else s[lo..if hi <= |s| then hi else |s|]
  }

  /** The code of a new session, from the base-36 rendering of a random number ("0.xxxxxx…"):
      its characters 2 to 7, upper-cased. */
  function SessionCode(rendered: string): (code: string)
    ensures |code| <= 6
    ensures ToUpper(code) == code
    ensures |rendered| >= 8 ==> |code| == 6
  {
    ToUpperIdempotent(Substring(rendered, 2, 8));
    ToUpper(Substring(rendered, 2, 8))
  }

  /** The code has six characters only when the rendering has at least eight: a shorter
      rendering gives a shorter code. */
  lemma ShortRenderingShortCode(rendered: string)
    ensures |SessionCode(rendered)| == (if |rendered| <= 2 then 0 else if |rendered| >= 8 then 6 else |rendered| - 2)
    ensures |rendered| < 8 ==> |SessionCode(rendered)| < 6
  {
  }

  /** `participants.includes(id)` or else push it. */
  function AddParticipant(participants: seq<string>, id: string): (r: seq<string>)
    ensures id in r && (forall x :: x in participants ==> x in r)
    ensures id in participants ==> r == participants
    ensures id !in participants ==> r == participants + [id]
  {
    if id in participants then participants else participants + [id]
  }

  /** No participant is listed twice. */
  predicate Distinct(xs: seq<string>) {
    forall i, j :: 0 <= i < j < |xs| ==> xs[i] != xs[j]
  }

  /** Adding a participant keeps the list free of repeats, and adding the same one again
      changes nothing. */
  lemma AddParticipantLaws(participants: seq<string>, id: string)
    requires Distinct(participants)
    ensures Distinct(AddParticipant(participants, id))
    ensures AddParticipant(AddParticipant(participants, id), id) == AddParticipant(participants, id)
  {
    if id !in participants {
      var r := participants + [id];
      forall i, j | 0 <= i < j < |r| ensures r[i] != r[j] {
        if j == |participants| {
          assert r[i] == participants[i];
        }
      }
    }
  }

  datatype CreateResponse = CreateOk(code: string) | CreateError
  datatype JoinResponse = Joined(code: string) | NotFound(message: string) | JoinError

  class SessionStore {
    /** Stored sessions keyed by their unique code. */
    var sessions: map<string, Session>

    ghost predicate Valid()
      reads this
    {
      forall c :: c in sessions ==>
        && sessions[c].code == c && SessionValid(sessions[c]) && ToUpper(c) == c
        && Distinct(sessions[c].participants)
    }

    constructor ()
      ensures Valid() && sessions == map[]
    {
      sessions := map[];
    }

    /** `POST /api/create-session`. Saving fails when the teacher id is missing, when the code
        came out empty, or when the code is already taken (the unique index). */
    method CreateSession(rendered: string, teacherId: string, now: int) returns (resp: CreateResponse)
      requires Valid()
      modifies this
      ensures Valid()
      ensures var code := SessionCode(rendered);
              if code == "" || teacherId == "" || code in old(sessions) then
                resp == CreateError && sessions == old(sessions)
              else
                resp == CreateOk(code) && sessions == old(sessions)[code := NewSession(code, teacherId, now)]
    {
      var code := SessionCode(rendered);
      var session := NewSession(code, teacherId, now);
      if !SessionValid(session) || code in sessions {
        return CreateError;
      }
      sessions := sessions[code := session];
      resp := CreateOk(code);
    }

    /** `POST /api/join-session`. The code is looked up upper-cased; an absent code makes the
        upper-casing throw. A known session gains the student once and answers with its own
        stored code. */
    method JoinSession(code: Option<string>, studentId: string) returns (resp: JoinResponse)
      requires Valid()
      modifies this
      ensures Valid()
      ensures code.None? ==> resp == JoinError && sessions == old(sessions)
      ensures code.Some? && ToUpper(code.value) !in old(sessions) ==>
                resp == NotFound(SessionNotFound) && sessions == old(sessions)
      ensures code.Some? && ToUpper(code.value) in old(sessions) ==>
                var key := ToUpper(code.value);
                var s := old(sessions)[key];
                && resp == Joined(key)
                && sessions == old(sessions)[key := s.(participants := AddParticipant(s.participants, studentId))]
    {
      if code.None? {
        return JoinError;
      }
      var key := ToUpper(code.value);
      if key !in sessions {
        return NotFound(SessionNotFound);
      }
      var session := sessions[key];
      if studentId !in session.participants {
        AddParticipantLaws(session.participants, studentId);
        sessions := sessions[key := session.(participants := session.participants + [studentId])];
      }
      resp := Joined(session.code);
    }
  }
}
