/**
 * The JSON API: the API-key gate every request passes first, the submission pipeline
 * (file, size ceiling, tag ids, descriptor, ownership and version rule, then the staged
 * writes), and the title availability query.
 */
module Api {
  import opened Wrappers
  import opened Strings
  import opened Tables
  import opened Schema
  import opened Utils
  import opened Versions
  import opened Submission
  import opened Archives

  /** Every way an API request is refused. */
  datatype ApiError =
    | NoApiKey | BadApiKey | AuthDatabaseError
    | MissingFile | NoSelectedFile | NotZip | BadSizeSetting | TooLarge
    | TagsFieldMissing | InvalidTags | TagCheckError | UnknownTags
    | BadArchiveError | NoDescriptorError | NoNameError | Unexpected
    | OtherAuthor | VersionNotHigher | VersionInvalid | DatabaseError
    | MissingTitle

  /** The HTTP status of each refusal. Errors the code catches and answers itself are
      400, 401 or 403; database errors and exceptions nobody catches are 500. */
  function Status(e: ApiError): (code: int)
    ensures code == 401 <==> e == NoApiKey
    ensures code == 403 <==> e == BadApiKey || e == OtherAuthor
    ensures code == 500 <==> e in {AuthDatabaseError, BadSizeSetting, TagsFieldMissing, TagCheckError, Unexpected, DatabaseError}
    ensures code == 400 || code == 401 || code == 403 || code == 500
  {
    match e
    case NoApiKey => 401
    case BadApiKey => 403
    case OtherAuthor => 403
    case AuthDatabaseError => 500
    case BadSizeSetting => 500
    case TagsFieldMissing => 500
    case TagCheckError => 500
    case Unexpected => 500
    case DatabaseError => 500
    case _ => 400
  }

  // ---------------------------------------------------------------- require_api_key

  ghost predicate ActiveKey(rows: seq<Row<ApiKey>>, key: string)
  {
    exists i :: 0 <= i < |rows| && rows[i].val.key == key && rows[i].val.isActive
  }

  /** `require_api_key`: no (or an empty) header is 401; a key with no row, or whose row
      is inactive, is 403; a database error is 500; otherwise the key's row. */
  function Authenticate(keys: Table<ApiKey>, header: Option<string>, fault: bool): (r: Result<ApiKey, ApiError>)
    ensures r == Failure(NoApiKey) <==> !Present(header)
    ensures r == Failure(AuthDatabaseError) <==> Present(header) && fault
    ensures r.Failure? ==> r.error in {NoApiKey, BadApiKey, AuthDatabaseError}
    ensures r.Success? ==> (r.value.key == header.value && r.value.isActive &&
      exists i :: 0 <= i < |keys.rows| && keys.rows[i].val == r.value)
    ensures ApiKeysOk(keys) ==> (r.Success? <==> Present(header) && !fault && ActiveKey(keys.rows, header.value))
  {
    if !Present(header) then Failure(NoApiKey)
    else if fault then Failure(AuthDatabaseError)
    else
      var k := IndexOf(keys.rows, KeyText, header.value);
      if k < 0 || !keys.rows[k].val.isActive then Failure(BadApiKey)
      else Success(keys.rows[k].val)
  }

  // ---------------------------------------------------------------- tag ids

  /** A piece the list comprehension keeps: not blank once stripped. */
  predicate Filled(piece: string)
  {
    Strip(piece) != ""
  }

  /** A kept piece that `int()` refuses. */
  predicate BadPiece(piece: string)
  {
    Filled(piece) && ParseInt(Strip(piece)).None?
  }

  /** `[int(tid.strip()) for tid in parts if tid.strip()]`: blank pieces are skipped;
      None when a piece is not an integer (ValueError). */
  function ParseSegments(parts: seq<string>): (r: Option<seq<int>>)
    ensures r.Some? ==> |r.value| <= |parts|
    ensures r.None? <==> exists i {:trigger BadPiece(parts[i])} :: 0 <= i < |parts| && BadPiece(parts[i])
    ensures r == Some([]) <==> forall i {:trigger Filled(parts[i])} :: 0 <= i < |parts| ==> !Filled(parts[i])
  {
    if parts == [] then Some([])
    else
      var rest := ParseSegments(parts[1..]);
      assert forall i :: 0 < i < |parts| ==> parts[1..][i - 1] == parts[i];
      assert forall i {:trigger BadPiece(parts[i])} :: 0 < i < |parts| ==>
        (BadPiece(parts[i]) <==> BadPiece(parts[1..][i - 1])) && (Filled(parts[i]) <==> Filled(parts[1..][i - 1]));
      assert Filled(parts[0]) == (Strip(parts[0]) != "") && BadPiece(parts[0]) == (Filled(parts[0]) && ParseInt(Strip(parts[0])).None?);
      if Strip(parts[0]) == "" then rest
      else match ParseInt(Strip(parts[0]))
        case None => None
        case Some(n) => if rest.None? then None else Some([n] + rest.value)
  }

  /** The tag ids of a `tags` string: refused when a piece is not an integer, or when
      no piece is left once blank ones are skipped. */
  function TagIdsOf(s: string): (r: Result<seq<int>, ApiError>)
    ensures r.Failure? ==> r.error == InvalidTags
    ensures r.Success? ==> r.value != [] && ParseSegments(Split(s, ',')) == Some(r.value)
    ensures r.Failure? <==>
      (exists i {:trigger BadPiece(Split(s, ',')[i])} :: 0 <= i < |Split(s, ',')| && BadPiece(Split(s, ',')[i])) ||
      (forall i {:trigger Filled(Split(s, ',')[i])} :: 0 <= i < |Split(s, ',')| ==> !Filled(Split(s, ',')[i]))
  {
    match ParseSegments(Split(s, ','))
    case None => Failure(InvalidTags)
    case Some(ids) => if ids == [] then Failure(InvalidTags) else Success(ids)
  }

  /** Tag parsing as written: a request without a `tags` field makes `tags_str.split`
      raise AttributeError, which the `except (ValueError, TypeError)` does not catch,
      so the request ends in a 500. */
  function ParseTagIdsAsWritten(field: Option<string>): (r: Result<seq<int>, ApiError>)
    ensures field.None? ==> r == Failure(TagsFieldMissing)
    ensures field.Some? ==> r == TagIdsOf(field.value)
  {
    match field
    case None => Failure(TagsFieldMissing)
    case Some(s) => TagIdsOf(s)
  }

  /** Tag parsing as intended: a missing field is refused with 400 like any other
      unusable value. The rest of the model uses this one. */
  function ParseTagIds(field: Option<string>): (r: Result<seq<int>, ApiError>)
    ensures r.Failure? ==> Status(r.error) == 400
    ensures r.Success? ==> field.Some? && r.value != []
  {
    match field
    case None => Failure(InvalidTags)
    case Some(s) => TagIdsOf(s)
  }

  /** The missing `tags` field is the only input on which the two differ: as written it
      is a 500, as intended a 400. */
  lemma MissingTagsFinding(s: string)
    ensures Status(ParseTagIdsAsWritten(None).error) == 500
    ensures Status(ParseTagIds(None).error) == 400
    ensures ParseTagIdsAsWritten(Some(s)) == ParseTagIds(Some(s))
  {
  }

  function Decimals(ids: seq<int>): (parts: seq<string>)
    ensures |parts| == |ids|
    ensures forall i :: 0 <= i < |ids| ==> parts[i] == IntToString(ids[i])
  {
    if ids == [] then [] else [IntToString(ids[0])] + Decimals(ids[1..])
  }

  lemma IntToStringUnpadded(i: int)
    ensures IntToString(i) != "" && Strip(IntToString(i)) == IntToString(i)
  {
    var digits := NatToString(if i < 0 then -i else i);
    NoSpaceInDigits(digits);
    var s := IntToString(i);
    assert s[|s| - 1] == digits[|digits| - 1];
    StripUnpadded(s);
  }

  lemma {:induction false} ParseDecimals(ids: seq<int>)
    ensures ParseSegments(Decimals(ids)) == Some(ids)
  {
    if ids != [] {
      var parts := Decimals(ids);
      assert parts[1..] == Decimals(ids[1..]);
      ParseDecimals(ids[1..]);
      IntToStringUnpadded(ids[0]);
      ParseIntRoundTrip(ids[0]);
      assert [ids[0]] + ids[1..] == ids;
    }
  }

  /** A client writing its ids as `','.join(map(str, ids))` gets exactly those ids back. */
  lemma {:induction false} TagIdsRoundTrip(ids: seq<int>)
    requires ids != []
    ensures ParseTagIds(Some(Join(Decimals(ids), ","))) == Success(ids)
  {
    var parts := Decimals(ids);
    forall i | 0 <= i < |parts|
      ensures ',' !in parts[i]
    {
      IntToStringHasNo(ids[i], ',');
    }
    SplitJoin(parts, ',');
    ParseDecimals(ids);
  }

  /** Blank pieces and spaces around the ids are ignored. */
  lemma {:induction false} BlankPieceIgnored(a: seq<string>, blank: string, c: seq<string>)
    requires Strip(blank) == ""
    ensures ParseSegments(a + [blank] + c) == ParseSegments(a + c)
  {
    if a == [] {
      assert a + [blank] + c == [blank] + c;
      assert a + c == c;
      BlankFirstPiece([blank] + c, c);
    } else {
      BlankPieceIgnored(a[1..], blank, c);
      assert (a + [blank] + c)[1..] == a[1..] + [blank] + c;
      assert (a + c)[1..] == a[1..] + c;
      SameFirstPiece(a + [blank] + c, a + c);
    }
  }

  lemma BlankFirstPiece(x: seq<string>, rest: seq<string>)
    requires x != [] && Strip(x[0]) == "" && x[1..] == rest
    ensures ParseSegments(x) == ParseSegments(rest)
  {
  }

  lemma SameFirstPiece(x: seq<string>, y: seq<string>)
    requires x != [] && y != [] && x[0] == y[0]
    requires ParseSegments(x[1..]) == ParseSegments(y[1..])
    ensures ParseSegments(x) == ParseSegments(y)
  {
  }

  /** `SELECT COUNT(*) FROM tags WHERE id IN (...)`: the tag rows whose id is listed. */
  function CountTagsIn(rows: seq<Row<Tag>>, ids: seq<int>): (n: nat)
    ensures n <= |rows|
  {
    if rows == [] then 0 else (if rows[0].id in ids then 1 else 0) + CountTagsIn(rows[1..], ids)
  }

  function RowIds<T>(rows: seq<Row<T>>): set<int>
  {
    set i | 0 <= i < |rows| :: rows[i].id
  }

  function SetOf(ids: seq<int>): set<int>
  {
    set x | x in ids
  }

  ghost predicate Increasing<T>(rows: seq<Row<T>>)
  {
    forall i, j :: 0 <= i < j < |rows| ==> rows[i].id < rows[j].id
  }

  lemma RowIdsCons<T>(rows: seq<Row<T>>)
    requires rows != [] && Increasing(rows)
    ensures RowIds(rows) == {rows[0].id} + RowIds(rows[1..])
    ensures rows[0].id !in RowIds(rows[1..])
    ensures Increasing(rows[1..])
  {
    var rest := rows[1..];
    forall x | x in RowIds(rows)
      ensures x in {rows[0].id} + RowIds(rest)
    {
      var i :| 0 <= i < |rows| && rows[i].id == x;
      if i > 0 {
        assert rest[i - 1].id == x;
      }
    }
    forall x | x in RowIds(rest)
      ensures x in RowIds(rows)
    {
      var i :| 0 <= i < |rest| && rest[i].id == x;
      assert rows[i + 1].id == x;
    }
    forall i | 0 <= i < |rest|
      ensures rest[i].id != rows[0].id
    {
      assert rest[i] == rows[i + 1];
    }
  }

  lemma {:induction false} CountIsCard(rows: seq<Row<Tag>>, ids: seq<int>)
    requires Increasing(rows)
    ensures CountTagsIn(rows, ids) == |RowIds(rows) * SetOf(ids)|
  {
    if rows == [] {
      assert RowIds(rows) == {};
    } else {
      RowIdsCons(rows);
      CountIsCard(rows[1..], ids);
      var common := RowIds(rows[1..]) * SetOf(ids);
      if rows[0].id in ids {
        assert RowIds(rows) * SetOf(ids) == common + {rows[0].id};
      } else {
        assert RowIds(rows) * SetOf(ids) == common;
      }
    }
  }

  lemma {:induction false} SetOfCard(ids: seq<int>)
    ensures |SetOf(ids)| <= |ids|
    ensures |SetOf(ids)| == |ids| <==> Distinct(ids)
  {
    if ids == [] {
      assert SetOf(ids) == {};
    } else {
      var rest := ids[1..];
      SetOfCard(rest);
      assert SetOf(ids) == {ids[0]} + SetOf(rest) by {
        assert forall x :: x in ids <==> x == ids[0] || x in rest;
      }
      if ids[0] in rest {
        var j :| 0 <= j < |rest| && rest[j] == ids[0];
        assert ids[j + 1] == ids[0];
        assert !Distinct(ids);
      } else {
        assert Distinct(ids) <==> Distinct(rest) by {
          if Distinct(rest) {
            forall i, j | 0 <= i < j < |ids|
              ensures ids[i] != ids[j]
            {
              if i > 0 {
                assert ids[i] == rest[i - 1] && ids[j] == rest[j - 1];
              } else {
                assert ids[j] == rest[j - 1];
              }
            }
          }
          if Distinct(ids) {
            forall i, j | 0 <= i < j < |rest|
              ensures rest[i] != rest[j]
            {
              assert rest[i] == ids[i + 1] && rest[j] == ids[j + 1];
            }
          }
        }
      }
    }
  }

  lemma SubsetCard(a: set<int>, b: set<int>)
    requires a <= b
    ensures |a| <= |b|
    ensures |a| == |b| ==> a == b
  {
    assert a + (b - a) == b;
    assert a * (b - a) == {};
    if |a| == |b| {
      assert |b - a| == 0;
      assert b - a == {};
    }
  }

  /** The tag check passes exactly when the ids are pairwise different and each names
      an existing tag: an unknown id and a repeated id both make the count fall short. */
  lemma TagCheckIff(t: Table<Tag>, ids: seq<int>)
    requires WellKeyed(t)
    ensures CountTagsIn(t.rows, ids) == |ids| <==>
      Distinct(ids) && forall id :: id in ids ==> Find(t.rows, id) >= 0
  {
    var r := RowIds(t.rows);
    var s := SetOf(ids);
    CountIsCard(t.rows, ids);
    SetOfCard(ids);
    SubsetCard(r * s, s);
    if CountTagsIn(t.rows, ids) == |ids| {
      forall id | id in ids
        ensures Find(t.rows, id) >= 0
      {
        assert id in s;
        assert id in r;
        var i :| 0 <= i < |t.rows| && t.rows[i].id == id;
      }
    }
    if Distinct(ids) && forall id :: id in ids ==> Find(t.rows, id) >= 0 {
      forall x | x in s
        ensures x in r
      {
        var k := Find(t.rows, x);
        assert t.rows[k].id == x;
      }
      assert r * s == s;
    }
  }

  // ---------------------------------------------------------------- size ceiling

  const DefaultMaxUploadMb := 50
  const BytesPerMb := 1024 * 1024

  /** The `max_upload_size` entry `get_site_settings` returns (none after its own
      database error, which it swallows). */
  function MaxUploadSetting(s: Store, fault: bool): Option<string>
  {
    if fault then None
    else
      var k := IndexOf(s.settings.rows, SettingName, "max_upload_size");
      if k < 0 then None else Some(s.settings.rows[k].val.value)
  }

  /** `int(site_settings.get('max_upload_size', 50))`; None when `int` raises. */
  function MaxUploadMb(setting: Option<string>): Option<int>
  {
    if setting.None? then Some(DefaultMaxUploadMb) else ParseInt(setting.value)
  }

  /** `file_size > max_bytes` refuses, so a file of exactly the ceiling passes. */
  predicate WithinLimit(size: int, mb: int)
  {
    size <= mb * BytesPerMb
  }

  // ---------------------------------------------------------------- ownership and version

  /** `LOWER(name) = LOWER(?)` (ASCII folding) with `approved` among `states`. */
  predicate Claims(a: Adventure, name: string, states: set<int>)
  {
    LowerAll(a.name) == LowerAll(name) && a.approved in states
  }

  /** The row `fetchone()` returns: the first, in rowid order, that claims the name. */
  function FirstClaim(rows: seq<Row<Adventure>>, name: string, states: set<int>): (k: int)
    ensures -1 <= k < |rows|
    ensures k >= 0 ==> (Claims(rows[k].val, name, states) &&
      forall j :: 0 <= j < k ==> !Claims(rows[j].val, name, states))
    ensures k < 0 ==> forall j :: 0 <= j < |rows| ==> !Claims(rows[j].val, name, states)
  {
    if rows == [] then -1
    else if Claims(rows[0].val, name, states) then 0
    else
      var k := FirstClaim(rows[1..], name, states);
      if k < 0 then -1 else k + 1
  }

  /** The ownership and version rule: with no approved adventure of that name anything
      goes; otherwise its author must be the submitter and the new version must be
      strictly higher than the stored `game_version`. */
  function Ownership(rows: seq<Row<Adventure>>, name: string, userId: int, version: string): (r: Option<ApiError>)
    ensures r.Some? ==> r.value in {OtherAuthor, VersionNotHigher, VersionInvalid}
    ensures (forall j :: 0 <= j < |rows| ==> !Claims(rows[j].val, name, {Approved})) ==> r.None?
    ensures r == Some(OtherAuthor) ==> exists j :: 0 <= j < |rows| && Claims(rows[j].val, name, {Approved}) && rows[j].val.authorId != userId
    ensures var k := FirstClaim(rows, name, {Approved});
      r == Some(OtherAuthor) <==> k >= 0 && rows[k].val.authorId != userId
    ensures var k := FirstClaim(rows, name, {Approved});
      r == Some(VersionNotHigher) <==>
        k >= 0 && rows[k].val.authorId == userId && CheckHigher(rows[k].val.gameVersion, version) == NotHigher
    ensures var k := FirstClaim(rows, name, {Approved});
      r == Some(VersionInvalid) <==>
        k >= 0 && rows[k].val.authorId == userId && CheckHigher(rows[k].val.gameVersion, version) == Unparseable
    ensures r.None? && FirstClaim(rows, name, {Approved}) >= 0 ==>
      var live := rows[FirstClaim(rows, name, {Approved})].val;
      live.authorId == userId && live.gameVersion.Some? &&
      ParseVersion(live.gameVersion.value).Some? && ParseVersion(version).Some? &&
      Compare(ParseVersion(version).value, ParseVersion(live.gameVersion.value).value) > 0
  {
    var k := FirstClaim(rows, name, {Approved});
    if k < 0 then None
    else if rows[k].val.authorId != userId then Some(OtherAuthor)
    else match CheckHigher(rows[k].val.gameVersion, version)
      case Higher => None
      case NotHigher => Some(VersionNotHigher)
      case Unparseable => Some(VersionInvalid)
  }

  /** The owner resubmitting the live version, in any spelling the parser reads the same
      (such as "1.0" for "1.0.0"), is refused. */
  lemma ResubmissionRefused(rows: seq<Row<Adventure>>, name: string, userId: int, version: string)
    requires FirstClaim(rows, name, {Approved}) >= 0
    requires rows[FirstClaim(rows, name, {Approved})].val.authorId == userId
    requires rows[FirstClaim(rows, name, {Approved})].val.gameVersion == Some(version)
    ensures Ownership(rows, name, userId, version).Some?
  {
    if ParseVersion(version).Some? {
      SameVersionNotHigher(version);
    }
  }

  // ---------------------------------------------------------------- submit_adventure

  /** The request: the file part's name (None when there is no `adventure_file` part),
      its size, and the `description` and `tags` form fields. */
  datatype ApiRequest = ApiRequest(filename: Option<string>, fileSize: int, description: Option<string>,
                                   tags: Option<string>)

  /** Where a database error strikes: the key lookup, `get_site_settings`, the tag
      count, the ownership SELECT, the writes or COMMIT, and `log_statistic`. */
  datatype ApiFaults = ApiFaults(auth: bool, settings: bool, tagCount: bool, ownerLookup: bool,
                                 write: bool, stat: bool)

  predicate FileOk(req: ApiRequest)
  {
    req.filename.Some? && req.filename.value != "" && IsZipName(req.filename.value)
  }

  /** The checks before the archive is opened: the file, the size ceiling, the tag ids
      and the tag count. On success, the tag ids. */
  function Front(s: Store, setting: Option<string>, req: ApiRequest, tagFault: bool): (r: Result<seq<int>, ApiError>)
    ensures r == Failure(MissingFile) <==> req.filename.None?
    ensures r == Failure(NoSelectedFile) <==> req.filename == Some("")
    ensures r == Failure(NotZip) <==> req.filename.Some? && req.filename.value != "" && !IsZipName(req.filename.value)
    ensures r == Failure(BadSizeSetting) <==> FileOk(req) && MaxUploadMb(setting).None?
    ensures r == Failure(TooLarge) <==>
      FileOk(req) && MaxUploadMb(setting).Some? && !WithinLimit(req.fileSize, MaxUploadMb(setting).value)
    ensures r.Success? ==> FileOk(req) && WithinLimit(req.fileSize, MaxUploadMb(setting).value)
    ensures r.Success? ==> (ParseTagIds(req.tags) == Success(r.value) && !tagFault &&
      CountTagsIn(s.tags.rows, r.value) == |r.value|)
    ensures r == Failure(UnknownTags) ==> (ParseTagIds(req.tags).Success? &&
      CountTagsIn(s.tags.rows, ParseTagIds(req.tags).value) != |ParseTagIds(req.tags).value|)
    ensures (FileOk(req) && MaxUploadMb(setting).Some? && WithinLimit(req.fileSize, MaxUploadMb(setting).value) &&
      ParseTagIds(req.tags).Failure?) ==> r == Failure(ParseTagIds(req.tags).error)
    ensures (FileOk(req) && MaxUploadMb(setting).Some? && WithinLimit(req.fileSize, MaxUploadMb(setting).value) &&
      ParseTagIds(req.tags).Success? && tagFault) ==> r == Failure(TagCheckError)
    ensures (FileOk(req) && MaxUploadMb(setting).Some? && WithinLimit(req.fileSize, MaxUploadMb(setting).value) &&
      ParseTagIds(req.tags).Success? && !tagFault) ==>
      (r == Failure(UnknownTags) <==> CountTagsIn(s.tags.rows, ParseTagIds(req.tags).value) != |ParseTagIds(req.tags).value|)
  {
    if req.filename.None? then Failure(MissingFile)
    else if req.filename.value == "" then Failure(NoSelectedFile)
    else if !IsZipName(req.filename.value) then Failure(NotZip)
    else match MaxUploadMb(setting)
      case None => Failure(BadSizeSetting)
      case Some(mb) =>
        if !WithinLimit(req.fileSize, mb) then Failure(TooLarge)
        else match ParseTagIds(req.tags)
          case Failure(e) => Failure(e)
          case Success(ids) =>
            if tagFault then Failure(TagCheckError)
            else if CountTagsIn(s.tags.rows, ids) != |ids| then Failure(UnknownTags)
            else Success(ids)
  }

  function DescriptorFailure(e: DescriptorError): ApiError
  {
    match e
    case BadArchive => BadArchiveError
    case NoDescriptor => NoDescriptorError
    case NoName => NoNameError
    case NotAnObject => Unexpected
    case NonTextField => Unexpected
  }

  /** The submitted adventure, once every check has passed. */
  datatype Accepted = Accepted(row: Adventure, tagIds: seq<int>)

  /** Every check of `submit_adventure`, in the order the code makes them. */
  function Validate(s: Store, setting: Option<string>, req: ApiRequest, userId: int, archive: Archive,
                    filePath: string, faults: ApiFaults): (r: Result<Accepted, ApiError>)
    ensures Front(s, setting, req, faults.tagCount).Failure? ==> r == Failure(Front(s, setting, req, faults.tagCount).error)
    ensures r.Success? ==> Front(s, setting, req, faults.tagCount) == Success(r.value.tagIds)
    ensures r.Success? ==> (ReadDescriptor(archive, req.description).Success? &&
      var d := ReadDescriptor(archive, req.description).value;
      r.value.row == Adventure(d.name, d.description, userId, filePath, req.fileSize, d.builderVersion,
                               Some(d.gameVersion), Pending, 0))
    ensures r.Success? ==> (!faults.ownerLookup &&
      Ownership(s.adventures.rows, r.value.row.name, userId, r.value.row.gameVersion.value).None?)
    ensures (Front(s, setting, req, faults.tagCount).Success? && ReadDescriptor(archive, req.description).Failure?) ==>
      r == Failure(DescriptorFailure(ReadDescriptor(archive, req.description).error))
    ensures (Front(s, setting, req, faults.tagCount).Success? && ReadDescriptor(archive, req.description).Success? &&
      faults.ownerLookup) ==> r == Failure(DatabaseError)
    ensures (Front(s, setting, req, faults.tagCount).Success? && ReadDescriptor(archive, req.description).Success? &&
      !faults.ownerLookup) ==>
      var d := ReadDescriptor(archive, req.description).value;
      Ownership(s.adventures.rows, d.name, userId, d.gameVersion).Some? ==>
        r == Failure(Ownership(s.adventures.rows, d.name, userId, d.gameVersion).value)
    ensures (Front(s, setting, req, faults.tagCount).Success? && ReadDescriptor(archive, req.description).Success? &&
      !faults.ownerLookup) ==>
      (r.Failure? <==> Ownership(s.adventures.rows, ReadDescriptor(archive, req.description).value.name, userId,
                                 ReadDescriptor(archive, req.description).value.gameVersion).Some?)
  {
    match Front(s, setting, req, faults.tagCount)
    case Failure(e) => Failure(e)
    case Success(ids) =>
      match ReadDescriptor(archive, req.description)
      case Failure(e) => Failure(DescriptorFailure(e))
      case Success(d) =>
        if faults.ownerLookup then Failure(DatabaseError)
        else match Ownership(s.adventures.rows, d.name, userId, d.gameVersion)
          case Some(e) => Failure(e)
          case None =>
            Success(Accepted(Adventure(d.name, d.description, userId, filePath, req.fileSize,
                                       d.builderVersion, Some(d.gameVersion), Pending, 0), ids))
  }

  /** What an accepted submission satisfies: a `.zip` within the ceiling, a non-empty
      list of distinct existing tag ids, a non-empty name, and a pending row. */
  lemma AcceptedSubmission(s: Store, setting: Option<string>, req: ApiRequest, userId: int, archive: Archive,
                           filePath: string, faults: ApiFaults)
    requires Consistent(s)
    requires Validate(s, setting, req, userId, archive, filePath, faults).Success?
    ensures var a := Validate(s, setting, req, userId, archive, filePath, faults).value;
      && IsZipName(req.filename.value)
      && req.fileSize <= MaxUploadMb(setting).value * 1024 * 1024
      && a.tagIds != [] && Distinct(a.tagIds)
      && (forall id :: id in a.tagIds ==> Find(s.tags.rows, id) >= 0)
      && a.row.name != "" && a.row.approved == Pending && a.row.downloads == 0
  {
    FrontAccepted(s.tags, setting, req, faults.tagCount, s);
  }

  /** What passing the checks before the archive is opened guarantees. */
  lemma FrontAccepted(tags: Table<Tag>, setting: Option<string>, req: ApiRequest, tagFault: bool, s: Store)
    requires tags == s.tags && WellKeyed(tags)
    requires Front(s, setting, req, tagFault).Success?
    ensures var ids := Front(s, setting, req, tagFault).value;
      && IsZipName(req.filename.value)
      && req.fileSize <= MaxUploadMb(setting).value * 1024 * 1024
      && ids != [] && Distinct(ids)
      && (forall id :: id in ids ==> Find(tags.rows, id) >= 0)
  {
    TagCheckIff(tags, Front(s, setting, req, tagFault).value);
  }

  datatype SubmitOutcome = Created(adventureId: int) | Refused(error: ApiError)

  function SubmitNotice(name: string): string
  {
    "New API submission '" + name + "' needs approval"
  }

  /** What a submission leaves behind, given the verdict `d` on the database `before`:
      a refusal changes nothing; an accepted submission whose writes fail is a 500 and
      changes nothing; otherwise the row gets the next id, the staged writes of
      `Submitted` are committed, and the upload is counted unless that fails. */
  ghost predicate SubmitEffect(before: Store, after: Store, d: Result<Accepted, ApiError>, outcome: SubmitOutcome,
                               clock: Clock, faults: ApiFaults)
  {
    if d.Failure? then outcome == Refused(d.error) && after == before
    else if faults.write then outcome == Refused(DatabaseError) && after == before
    else
      && outcome == Created(before.adventures.lastId + 1)
      && after == Submitted(before, d.value.row, d.value.tagIds, SubmitNotice(d.value.row.name)).(statistics := after.statistics)
      && after.statistics == if faults.stat then before.statistics else Logged(before.statistics, "uploads", 1, clock)
  }

  /** The writes of an accepted submission, the COMMIT and the upload statistic. A
      database error before the COMMIT completes rolls everything back. */
  method Persist(db: Database, a: Accepted, clock: Clock, faults: ApiFaults) returns (outcome: SubmitOutcome)
    requires db.Valid() && Distinct(a.tagIds) && a.row.approved == Pending && a.row.downloads == 0
    modifies db
    ensures db.Valid()
    ensures SubmitEffect(old(db.State()), db.State(), Success(a), outcome, clock, faults)
  {
    var snapshot := db.State();
    var ok := RecordSubmission(db, a.row, a.tagIds, SubmitNotice(a.row.name));
    if faults.write {
      db.Load(snapshot);
      return Refused(DatabaseError);
    }
    var committed := db.State();
    LogStatistic(db, "uploads", 1, clock, faults.stat);
    outcome := Created(snapshot.adventures.lastId + 1);
    CommittedEffect(snapshot, committed, db.State(), a, clock, faults);
  }

  /** The committed writes followed by the upload statistic are the effect of an
      accepted submission. */
  lemma CommittedEffect(before: Store, committed: Store, after: Store, a: Accepted, clock: Clock, faults: ApiFaults)
    requires !faults.write
    requires committed == Submitted(before, a.row, a.tagIds, SubmitNotice(a.row.name))
    requires after == committed.(statistics := after.statistics)
    requires after.statistics == if faults.stat then committed.statistics else Logged(committed.statistics, "uploads", 1, clock)
    ensures SubmitEffect(before, after, Success(a), Created(before.adventures.lastId + 1), clock, faults)
  {
  }

  /** The verdict of the key gate and every check, on the database as the request
      finds it. */
  function Decide(s: Store, header: Option<string>, req: ApiRequest, archive: Archive, filePath: string,
                  faults: ApiFaults): Result<Accepted, ApiError>
  {
    match Authenticate(s.apiKeys, header, faults.auth)
    case Failure(e) => Failure(e)
    case Success(key) =>
      Validate(s, MaxUploadSetting(s, faults.settings), req, key.userId, archive, filePath, faults)
  }

  /** The columns of `adventures` the ownership SELECT names. */
  const OwnerLookupColumns: set<string> := {"id", "author_id", "game_version", "name", "approved"}

  /** The columns of `adventures` the submission's INSERT names. */
  const InsertColumns: set<string> := {"name", "description", "author_id", "file_path", "file_size", "game_version",
    "version_compat", "approved"}

  /** The faults a submission meets on an `adventures` table with `columns`: the
      ownership SELECT and the INSERT also raise when they name a missing column. */
  function FaultsOn(columns: set<string>, faults: ApiFaults): (r: ApiFaults)
    ensures r.ownerLookup == Raises(OwnerLookupColumns, columns, faults.ownerLookup)
    ensures r.write == Raises(InsertColumns, columns, faults.write)
    ensures r.auth == faults.auth && r.settings == faults.settings && r.tagCount == faults.tagCount &&
      r.stat == faults.stat
  {
    faults.(ownerLookup := Raises(OwnerLookupColumns, columns, faults.ownerLookup),
            write := Raises(InsertColumns, columns, faults.write))
  }

  /** On the table `init_db.py` creates, no submission is ever accepted: each request
      the intended schema accepts gets the 500 "Database error" from the ownership
      SELECT instead. With `game_version` the statements fail only on their own
      errors. */
  lemma SubmissionAsCreated(s: Store, header: Option<string>, req: ApiRequest, archive: Archive, filePath: string,
                            faults: ApiFaults)
    ensures Decide(s, header, req, archive, filePath, FaultsOn(CreatedAdventureColumns, faults)).Failure?
    ensures Decide(s, header, req, archive, filePath, faults).Success? ==>
      Decide(s, header, req, archive, filePath, FaultsOn(CreatedAdventureColumns, faults)) == Failure(DatabaseError)
    ensures FaultsOn(AdventureColumns, faults) == faults
  {
    GameVersionStatements(OwnerLookupColumns, faults.ownerLookup);
    GameVersionStatements(InsertColumns, faults.write);
  }

  /** `submit_adventure` behind `require_api_key`. The saved archive and its path are
      parameters. */
  method SubmitAdventure(db: Database, header: Option<string>, req: ApiRequest, archive: Archive,
                         filePath: string, clock: Clock, faults: ApiFaults) returns (outcome: SubmitOutcome)
    requires db.Valid()
    modifies db
    ensures db.Valid()
    ensures SubmitEffect(old(db.State()), db.State(), Decide(old(db.State()), header, req, archive, filePath, faults),
                         outcome, clock, faults)
  {
    var d := CheckSubmission(db, header, req, archive, filePath, faults);
    if d.Failure? {
      return Refused(d.error);
    }
    outcome := Persist(db, d.value, clock, faults);
  }

  /** The reads of `submit_adventure`: the key gate, the site settings and every check.
      An accepted submission is a pending, never-downloaded row with distinct tag ids. */
  method CheckSubmission(db: Database, header: Option<string>, req: ApiRequest, archive: Archive,
                         filePath: string, faults: ApiFaults) returns (d: Result<Accepted, ApiError>)
    requires db.Valid()
    ensures d == Decide(db.State(), header, req, archive, filePath, faults)
    ensures d.Success? ==> Distinct(d.value.tagIds) && d.value.row.approved == Pending && d.value.row.downloads == 0
  {
    var auth := Authenticate(db.apiKeys, header, faults.auth);
    if auth.Failure? {
      return Failure(auth.error);
    }
    var settings := GetSiteSettings(db, faults.settings);
    var setting := if "max_upload_size" in settings then Some(settings["max_upload_size"]) else None;
    SettingFromMap(db, settings, faults.settings);
    d := Validate(db.State(), setting, req, auth.value.userId, archive, filePath, faults);
    if d.Success? {
      AcceptedSubmission(db.State(), setting, req, auth.value.userId, archive, filePath, faults);
    }
  }

  /** The dictionary `get_site_settings` builds answers the lookup of
      `max_upload_size` as `MaxUploadSetting` does. */
  lemma SettingFromMap(db: Database, settings: map<string, string>, fault: bool)
    requires db.Valid()
    requires fault ==> settings == map[]
    requires !fault ==> settings.Keys == set i | 0 <= i < |db.settings.rows| :: db.settings.rows[i].val.name
    requires !fault ==> forall i :: 0 <= i < |db.settings.rows| ==>
      settings[db.settings.rows[i].val.name] == db.settings.rows[i].val.value
    ensures (if "max_upload_size" in settings then Some(settings["max_upload_size"]) else None) ==
      MaxUploadSetting(db.State(), fault)
  {
    if !fault {
      var k := IndexOf(db.settings.rows, SettingName, "max_upload_size");
      if k >= 0 {
        assert db.settings.rows[k].val.name == "max_upload_size";
      } else {
        assert forall i :: 0 <= i < |db.settings.rows| ==> SettingName(db.settings.rows[i].val) != "max_upload_size";
      }
    }
  }

  // ---------------------------------------------------------------- check_title_availability

  datatype Availability = Available | InUseByOther | InUseOrPending

  /** `check_title_availability`: the first pending or approved row with the title,
      ignoring ASCII case, decides. */
  function TitleAvailability(rows: seq<Row<Adventure>>, title: Option<string>, userId: int, fault: bool): (r: Result<Availability, ApiError>)
    ensures r == Failure(MissingTitle) <==> !Present(title)
    ensures r == Failure(DatabaseError) <==> Present(title) && fault
    ensures r == Success(Available) <==>
      Present(title) && !fault && forall j :: 0 <= j < |rows| ==> !Claims(rows[j].val, title.value, {Pending, Approved})
    ensures r == Success(InUseByOther) ==>
      exists j :: 0 <= j < |rows| && Claims(rows[j].val, title.value, {Approved}) && rows[j].val.authorId != userId
    ensures r == Success(InUseByOther) <==> (Present(title) && !fault &&
      var k := FirstClaim(rows, title.value, {Pending, Approved});
      k >= 0 && rows[k].val.approved == Approved && rows[k].val.authorId != userId)
    ensures r == Success(InUseOrPending) <==> (Present(title) && !fault &&
      var k := FirstClaim(rows, title.value, {Pending, Approved});
      k >= 0 && (rows[k].val.approved != Approved || rows[k].val.authorId == userId))
  {
    if !Present(title) then Failure(MissingTitle)
    else if fault then Failure(DatabaseError)
    else
      var k := FirstClaim(rows, title.value, {Pending, Approved});
      if k < 0 then Success(Available)
      else if rows[k].val.approved == Approved && rows[k].val.authorId != userId then Success(InUseByOther)
      else Success(InUseOrPending)
  }

  /** A title reported available passes the ownership rule of a submission under that
      name, whoever submits it and whatever its version. */
  lemma AvailableTitleHasNoOwner(rows: seq<Row<Adventure>>, title: string, userId: int, fault: bool,
                                 submitter: int, version: string)
    requires TitleAvailability(rows, Some(title), userId, fault) == Success(Available)
    ensures Ownership(rows, title, submitter, version).None?
  {
    forall j | 0 <= j < |rows|
      ensures !Claims(rows[j].val, title, {Approved})
    {
      assert !Claims(rows[j].val, title, {Pending, Approved});
    }
  }
}
