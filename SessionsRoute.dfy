/** app/api/sessions/route.ts: the validation of a session body and the
    POST and PUT handlers that store it. The store and the list of
    locations are parameters: `validLocationIds` is the set of ids
    `listLocations` returns, `now` and `newId` stand for the time stamp and
    the fresh id `upsertSessionV2` takes. */
module SessionsRoute {
  import opened Wrappers
  import opened Text
  import opened Dates
  import opened SessionsRepo

  const UserId: string := "me"

  // ---------------------------------------------------------------------------
  // `isIsoDate`: the anchored pattern /^\d{4}-\d{2}-\d{2}$/

  /** One position of a pattern made of single-character classes. */
  datatype CharClass = AnyDigit | Literal(c: char)

  predicate ClassMatches(k: CharClass, c: char) {
    match k
    case AnyDigit => IsDigit(c)
    case Literal(l) => c == l
  }

  const IsoDatePattern: seq<CharClass> :=
    [AnyDigit, AnyDigit, AnyDigit, AnyDigit, Literal('-'), AnyDigit, AnyDigit, Literal('-'), AnyDigit, AnyDigit]

  /** The whole of `s` matches `p`, position by position (`^` and `$` anchor
      both ends; `\d` without the `u` flag is an ASCII digit). */
  predicate Matches(s: string, p: seq<CharClass>) {
    if p == [] then s == []
    else s != [] && ClassMatches(p[0], s[0]) && Matches(s[1..], p[1..])
  }

  lemma {:induction false} MatchesIff(s: string, p: seq<CharClass>)
    ensures Matches(s, p) <==> |s| == |p| && forall i :: 0 <= i < |s| ==> ClassMatches(p[i], s[i])
  {
    if p != [] && s != [] {
      MatchesIff(s[1..], p[1..]);
      if |s| == |p| && forall i :: 0 <= i < |s| ==> ClassMatches(p[i], s[i]) {
        assert ClassMatches(p[0], s[0]);
        assert forall i :: 0 <= i < |s[1..]| ==> ClassMatches(p[1..][i], s[1..][i]) by {
          forall i | 0 <= i < |s[1..]| ensures ClassMatches(p[1..][i], s[1..][i]) {
            assert ClassMatches(p[i + 1], s[i + 1]);
          }
        }
      }
      if Matches(s, p) {
        forall i | 0 <= i < |s| ensures ClassMatches(p[i], s[i]) {
          if i > 0 { assert ClassMatches(p[1..][i - 1], s[1..][i - 1]); }
        }
      }
    }
  }

  predicate IsIsoDate(value: string) {
    Matches(value, IsoDatePattern)
  }

  /** A date is accepted exactly when it is ten characters: four digits, a
      dash, two digits, a dash and two digits. */
  lemma IsIsoDateShape(value: string)
    ensures IsIsoDate(value) <==>
      && |value| == 10 && value[4] == '-' && value[7] == '-'
      && AllDigits(value[..4]) && AllDigits(value[5..7]) && AllDigits(value[8..])
  {
    MatchesIff(value, IsoDatePattern);
    if |value| == 10 && value[4] == '-' && value[7] == '-'
       && AllDigits(value[..4]) && AllDigits(value[5..7]) && AllDigits(value[8..]) {
      forall i | 0 <= i < 10 ensures ClassMatches(IsoDatePattern[i], value[i]) {
        if i < 4 { assert value[..4][i] == value[i]; }
        else if 5 <= i < 7 { assert value[5..7][i - 5] == value[i]; }
        else if 8 <= i { assert value[8..][i - 8] == value[i]; }
      }
    }
    if IsIsoDate(value) {
      assert forall i :: 0 <= i < 10 ==> ClassMatches(IsoDatePattern[i], value[i]);
      assert AllDigits(value[..4]) by {
        forall i | 0 <= i < 4 ensures IsDigit(value[..4][i]) {
          assert ClassMatches(IsoDatePattern[i], value[i]);
        }
      }
      assert AllDigits(value[5..7]) by {
        forall i | 0 <= i < 2 ensures IsDigit(value[5..7][i]) {
          assert ClassMatches(IsoDatePattern[i + 5], value[i + 5]);
        }
      }
      assert AllDigits(value[8..]) by {
        forall i | 0 <= i < 2 ensures IsDigit(value[8..][i]) {
          assert ClassMatches(IsoDatePattern[i + 8], value[i + 8]);
        }
      }
      assert ClassMatches(IsoDatePattern[4], value[4]) && ClassMatches(IsoDatePattern[7], value[7]);
    }
  }

  /** Every date that `toIsoDateUTC` writes for a four-digit year passes the
      check. */
  lemma ToIsoDateAccepted(d: Date)
    requires ValidDate(d) && 1000 <= d.year <= 9999
    ensures IsIsoDate(ToIsoDate(d))
  {
    IsoDateFields(d);
    IsIsoDateShape(ToIsoDate(d));
  }

  /** The check is on the form only: a month 13 and a day 45 pass. */
  lemma NoCalendarCheck()
    ensures IsIsoDate("2024-13-45")
  {
    var s := "2024-13-45";
    MatchesIff(s, IsoDatePattern);
    assert forall i :: 0 <= i < 10 ==> ClassMatches(IsoDatePattern[i], s[i]);
  }

  /** A two-digit year or a one-digit month does not pass. */
  lemma ShortFieldsRejected()
    ensures !IsIsoDate("24-01-01")
    ensures !IsIsoDate("2024-1-01")
  {
    MatchesIff("24-01-01", IsoDatePattern);
    MatchesIff("2024-1-01", IsoDatePattern);
  }

  // ---------------------------------------------------------------------------
  // `parseAndValidate`

  /** The request body; an absent field is `None`. */
  datatype SessionBody = SessionBody(sessionDate: Option<string>, locationId: Option<string>,
                                     exerciseIds: Option<seq<string>>, notesRaw: Option<string>)

  datatype Parsed = Parsed(sessionDate: string, locationId: string, exerciseIds: seq<string>,
                           notesRaw: Option<string>)

  const DateError: string := "sessionDate must be YYYY-MM-DD"
  const ExercisesError: string := "At least one exercise is required"

  /** `value || fallback` for an optional string: absent and empty fall back. */
  function OrElse(value: Option<string>, fallback: string): (r: string)
    ensures value.Some? && value.value != [] ==> r == value.value
    ensures value.None? || value.value == [] ==> r == fallback
  {
    if value.Some? && value.value != [] then value.value else fallback
  }

  function ParseAndValidate(body: SessionBody): (r: Result<Parsed>)
    ensures var date := Trim(OrElse(body.sessionDate, ""));
      var ids := TrimmedNonBlank(if body.exerciseIds.Some? then body.exerciseIds.value else []);
      && (r.Ok? <==> IsIsoDate(date) && ids != [])
      && (!IsIsoDate(date) ==> r == Err(DateError))
      && (IsIsoDate(date) && ids == [] ==> r == Err(ExercisesError))
      && (r.Ok? ==> r.value == Parsed(date, Trim(OrElse(body.locationId, "unknown")), ids, body.notesRaw))
  {
    var sessionDate := Trim(OrElse(body.sessionDate, ""));
    var locationId := Trim(OrElse(body.locationId, "unknown"));
    var exerciseIds := TrimmedNonBlank(if body.exerciseIds.Some? then body.exerciseIds.value else []);
    if !IsIsoDate(sessionDate) then Err(DateError)
    else if exerciseIds == [] then Err(ExercisesError)
    else Ok(Parsed(sessionDate, locationId, exerciseIds, body.notesRaw))
  }

  /** What an accepted body holds: a date of the checked form, at least one
      exercise id, every id trimmed and non-blank and taken from the body,
      and the notes as sent. An absent or empty location becomes "unknown";
      a location of blanks only trims to the empty string. */
  lemma ParsedFields(body: SessionBody)
    requires ParseAndValidate(body).Ok?
    ensures var p := ParseAndValidate(body).value;
      && IsIsoDate(p.sessionDate) && |p.sessionDate| == 10
      && p.exerciseIds != []
      && (forall i :: 0 <= i < |p.exerciseIds| ==> p.exerciseIds[i] != [] && IsTrimmed(p.exerciseIds[i]))
      && (forall x :: x in p.exerciseIds ==> exists y :: y in body.exerciseIds.value && Trim(y) == x)
      && p.notesRaw == body.notesRaw
      && (body.locationId.None? || body.locationId.value == [] ==> p.locationId == "unknown")
      && (body.locationId.Some? && body.locationId.value != [] && AllSpace(body.locationId.value) ==>
            p.locationId == [])
  {
    var p := ParseAndValidate(body).value;
    IsIsoDateShape(p.sessionDate);
    TrimOfTrimmed("unknown");
    if body.locationId.Some? && body.locationId.value != [] {
      TrimIsEmptyIffBlank(body.locationId.value);
    }
  }

  // ---------------------------------------------------------------------------
  // POST and PUT

  datatype Payload = Error(error: string) | Stored(session: SessionV2)

  datatype Response = Response(status: int, payload: Payload)

  /** `Invalid locationId: ${locationId}` */
  function InvalidLocation(locationId: string): string {
    "Invalid locationId: " + locationId
  }

  /** The handler shared by POST and PUT, answering `okStatus` on success:
      validate, check the location against the listed ones, then store a
      session under the fixed user with no given session id. */
  function Write(body: SessionBody, validLocationIds: set<string>, now: string, newId: string,
                 okStatus: int): (r: Response)
    requires okStatus != 400
    ensures var parsed := ParseAndValidate(body);
      && (parsed.Err? ==> r == Response(400, Error(parsed.message)))
      && (parsed.Ok? && parsed.value.locationId !in validLocationIds ==>
            r == Response(400, Error(InvalidLocation(parsed.value.locationId))))
      && (r.status == okStatus <==> parsed.Ok? && parsed.value.locationId in validLocationIds)
  {
    match ParseAndValidate(body)
    case Err(message) => Response(400, Error(message))
    case Ok(parsed) =>
      if parsed.locationId !in validLocationIds then
        Response(400, Error(InvalidLocation(parsed.locationId)))
      else
        Response(okStatus, Stored(UpsertSessionV2(UserId, None, parsed.sessionDate, None, None,
                                                  parsed.locationId, Items(parsed.exerciseIds),
                                                  parsed.notesRaw, now, newId)))
  }

  function Post(body: SessionBody, validLocationIds: set<string>, now: string, newId: string): (r: Response)
    ensures r.status == 201 || r.status == 400
  {
    Write(body, validLocationIds, now, newId, 201)
  }

  function Put(body: SessionBody, validLocationIds: set<string>, now: string, newId: string): (r: Response)
    ensures r.status == 200 || r.status == 400
  {
    Write(body, validLocationIds, now, newId, 200)
  }

  /** The session `upsertSessionV2` builds from an accepted body. */
  lemma StoredSession(p: Parsed, now: string, newId: string)
    ensures var s := UpsertSessionV2(UserId, None, p.sessionDate, None, None, p.locationId,
                                     Items(p.exerciseIds), p.notesRaw, now, newId);
      && s.sessionId == newId
      && s.sessionSortKey == p.sessionDate + "T00:00"
  {
    UpsertSortKeyAgrees(UserId, None, p.sessionDate, None, None, p.locationId, Items(p.exerciseIds),
                        p.notesRaw, now, newId);
  }

  /** A stored session belongs to "me", carries the validated date, the parsed
      location (which is listed), one item without notes per cleaned exercise
      id in the order sent, the notes as sent, and the fresh id: the session
      is new even when the request is a PUT. */
  lemma WriteStores(body: SessionBody, validLocationIds: set<string>, now: string, newId: string,
                    okStatus: int)
    requires okStatus != 400
    requires Write(body, validLocationIds, now, newId, okStatus).status == okStatus
    ensures var r := Write(body, validLocationIds, now, newId, okStatus);
      var p := ParseAndValidate(body).value;
      && r.payload.Stored?
      && r.payload.session.userId == UserId
      && r.payload.session.sessionId == newId
      && r.payload.session.sessionDate == p.sessionDate && IsIsoDate(r.payload.session.sessionDate)
      && r.payload.session.locationId == p.locationId && p.locationId in validLocationIds
      && |r.payload.session.exerciseItems| == |p.exerciseIds|
      && (forall i :: 0 <= i < |p.exerciseIds| ==>
            r.payload.session.exerciseItems[i] == ExerciseItem(p.exerciseIds[i], None))
      && r.payload.session.notesRaw == body.notesRaw
      && r.payload.session.sessionSortKey == p.sessionDate + "T00:00"
      && !r.payload.session.deleted
  {
    var p := ParseAndValidate(body).value;
    var s := UpsertSessionV2(UserId, None, p.sessionDate, None, None, p.locationId, Items(p.exerciseIds),
                             p.notesRaw, now, newId);
    assert Write(body, validLocationIds, now, newId, okStatus).payload == Stored(s);
    StoredSession(p, now, newId);
  }

  /** POST and PUT answer the same body with the same payload; only the
      success status differs. */
  lemma PostPutAgree(body: SessionBody, validLocationIds: set<string>, now: string, newId: string)
    ensures Post(body, validLocationIds, now, newId).payload == Put(body, validLocationIds, now, newId).payload
    ensures Post(body, validLocationIds, now, newId).status == 201 <==>
            Put(body, validLocationIds, now, newId).status == 200
  {
  }
}
