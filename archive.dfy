/**
 * The uploaded ZIP archive as the two upload paths look into it: whether `zipfile` can
 * open it, whether it holds `game_data.json`, whether that entry decodes as JSON, and
 * the few fields read from the decoded document.
 */
module Archives {
  import opened Wrappers
  import opened Strings

  /** A JSON value as far as the code inspects it: a string, an object, or any other
      value (number, boolean, null, array) together with its Python truth value. */
  datatype Json = JString(s: string) | JObject(fields: map<string, Json>) | JOther(truthy: bool)

  /** A `game_data.json` entry: bytes `json.load` rejects, or a decoded document. */
  datatype Entry = Undecodable | Decoded(doc: Json)

  /** The saved upload: a file `zipfile` refuses (BadZipFile), or an archive mapping
      entry names to their contents. */
  datatype Archive = Corrupt | Zip(entries: map<string, Entry>)

  const DescriptorName := "game_data.json"

  /** `filename.lower().endswith('.zip')` */
  predicate IsZipName(filename: string)
  {
    EndsWith(LowerAll(filename), ".zip")
  }

  /** One field of a JSON object read with `.get`: absent, a string, or another value
      with its truth value. */
  datatype Field = Missing | Text(s: string) | NonText(truthy: bool)

  function FieldOf(fields: map<string, Json>, key: string): (f: Field)
    ensures f.Missing? <==> key !in fields
    ensures f.Text? <==> key in fields && fields[key].JString?
    ensures f.Text? ==> fields[key] == JString(f.s)
    ensures f.NonText? ==> (f.truthy <==> fields[key] != JObject(map[]) && fields[key] != JOther(false))
  {
    if key !in fields then Missing
    else match fields[key]
      case JString(s) => Text(s)
      case JObject(m) => NonText(m != map[])
      case JOther(t) => NonText(t)
  }

  /** Python's truth value of what `.get` returned: None (an absent key), an empty
      string, and a falsy value are false. */
  predicate Truthy(f: Field)
  {
    match f
    case Missing => false
    case Text(s) => s != ""
    case NonText(t) => t
  }

  /** An archive whose descriptor decodes to the object `doc`. */
  function Package(doc: map<string, Json>): Archive
  {
    Zip(map[DescriptorName := Decoded(JObject(doc))])
  }

  // ---------------------------------------------------------------- web upload

  /** The web upload's `version_compat`: the descriptor's top-level `version`; "Unknown"
      when the archive cannot be opened, has no descriptor, the descriptor does not
      decode or is not an object, or the field is absent. Every such failure is
      swallowed, so the result is never `Missing`. */
  function VersionCompat(a: Archive): (f: Field)
    ensures f != Missing
    ensures f.Text? && f.s != "Unknown" ==>
      && a.Zip? && DescriptorName in a.entries
      && a.entries[DescriptorName].Decoded? && a.entries[DescriptorName].doc.JObject?
      && FieldOf(a.entries[DescriptorName].doc.fields, "version") == f
  {
    if a.Corrupt? || DescriptorName !in a.entries then Text("Unknown")
    else match a.entries[DescriptorName]
      case Undecodable => Text("Unknown")
      case Decoded(doc) =>
        if !doc.JObject? then Text("Unknown")
        else match FieldOf(doc.fields, "version")
          case Missing => Text("Unknown")
          case f => f
  }

  /** A descriptor carrying a string `version` yields exactly that string, and one
      without a `version` yields "Unknown". */
  lemma VersionCompatOfPackage(doc: map<string, Json>)
    ensures "version" in doc && doc["version"].JString? ==> VersionCompat(Package(doc)) == Text(doc["version"].s)
    ensures "version" !in doc ==> VersionCompat(Package(doc)) == Text("Unknown")
  {
    assert DescriptorName in Package(doc).entries;
  }

  /** Archives without a readable descriptor object all give "Unknown". */
  lemma VersionCompatFallbacks(entries: map<string, Entry>, other: Json)
    requires !other.JObject?
    ensures VersionCompat(Corrupt) == Text("Unknown")
    ensures DescriptorName !in entries ==> VersionCompat(Zip(entries)) == Text("Unknown")
    ensures VersionCompat(Zip(entries[DescriptorName := Undecodable])) == Text("Unknown")
    ensures VersionCompat(Zip(entries[DescriptorName := Decoded(other)])) == Text("Unknown")
  {
    assert DescriptorName in entries[DescriptorName := Undecodable];
    assert DescriptorName in entries[DescriptorName := Decoded(other)];
  }

  // ---------------------------------------------------------------- API submission

  /** What the API reads from a descriptor, defaults applied. */
  datatype Descriptor = Descriptor(name: string, gameVersion: string, builderVersion: string,
                                   description: string)

  /** Why the descriptor was refused: the archive or its JSON is unreadable
      (BadZipFile / JSONDecodeError), there is no descriptor, the name is falsy
      (missing, empty, or a falsy JSON value), the document or its `game_info` is not an
      object (AttributeError), or a field that is used holds a value other than a
      string. */
  datatype DescriptorError = BadArchive | NoDescriptor | NoName | NotAnObject | NonTextField

  const DefaultGameVersion := "1.0.0"
  const DefaultBuilderVersion := "Unknown"
  const DefaultDescription := "No description provided."

  /** `game_data.get('game_info', {})`, or None when the document or its `game_info`
      is not an object. */
  function GameInfo(doc: Json): (info: Option<map<string, Json>>)
    ensures info.Some? <==> doc.JObject? && ("game_info" in doc.fields ==> doc.fields["game_info"].JObject?)
  {
    if !doc.JObject? then None
    else if "game_info" !in doc.fields then Some(map[])
    else match doc.fields["game_info"]
      case JObject(m) => Some(m)
      case _ => None
  }

  /** The description stored: the form's when non-empty, else the descriptor's when it
      is truthy, else the default. */
  function ChooseDescription(form: Option<string>, field: Field): Result<string, DescriptorError>
  {
    if Present(form) then Success(form.value)
    else if !Truthy(field) then Success(DefaultDescription)
    else match field
      case Text(s) => Success(s)
      case _ => Failure(NonTextField)
  }

  function WithDefault(f: Field, default: string): Result<string, DescriptorError>
  {
    match f
    case Missing => Success(default)
    case Text(s) => Success(s)
    case NonText(_) => Failure(NonTextField)
  }

  /** Reading the descriptor for an API submission. */
  function ReadDescriptor(a: Archive, form: Option<string>): (r: Result<Descriptor, DescriptorError>)
    ensures r == Failure(BadArchive) <==>
      a.Corrupt? || (DescriptorName in a.entries && a.entries[DescriptorName].Undecodable?)
    ensures r == Failure(NoDescriptor) <==> a.Zip? && DescriptorName !in a.entries
    ensures r == Failure(NoName) <==>
      && a.Zip? && DescriptorName in a.entries && a.entries[DescriptorName].Decoded?
      && GameInfo(a.entries[DescriptorName].doc).Some?
      && !Truthy(FieldOf(GameInfo(a.entries[DescriptorName].doc).value, "name"))
    ensures r.Success? ==> r.value.name != ""
    ensures r.Success? && Present(form) ==> r.value.description == form.value
    ensures r.Success? ==> r.value.description != ""
  {
    if a.Corrupt? then Failure(BadArchive)
    else if DescriptorName !in a.entries then Failure(NoDescriptor)
    else match a.entries[DescriptorName]
      case Undecodable => Failure(BadArchive)
      case Decoded(doc) =>
        match GameInfo(doc)
        case None => Failure(NotAnObject)
        case Some(info) =>
          var name := FieldOf(info, "name");
          var version := WithDefault(FieldOf(info, "version"), DefaultGameVersion);
          var builder := WithDefault(FieldOf(info, "builder_version"), DefaultBuilderVersion);
          var description := ChooseDescription(form, FieldOf(info, "description"));
          if !Truthy(name) then Failure(NoName)
          else if !name.Text? || version.Failure? || builder.Failure? || description.Failure? then
            Failure(NonTextField)
          else Success(Descriptor(name.s, version.value, builder.value, description.value))
  }

  /** A descriptor `{"game_info": info}` whose fields are strings: the name is required,
      the versions default to "1.0.0" and "Unknown", and the description comes from the
      form, else from the descriptor, else the default. */
  lemma {:induction false} ReadPackage(info: map<string, Json>, form: Option<string>)
    requires forall k :: k in info ==> info[k].JString?
    ensures var r := ReadDescriptor(Package(map["game_info" := JObject(info)]), form);
      && (r == Failure(NoName) <==> "name" !in info || info["name"].s == "")
      && (r.Failure? ==> r == Failure(NoName))
      && (r.Success? ==> r.value == Descriptor(
           info["name"].s,
           if "version" in info then info["version"].s else DefaultGameVersion,
           if "builder_version" in info then info["builder_version"].s else DefaultBuilderVersion,
           if Present(form) then form.value
           else if "description" in info && info["description"].s != "" then info["description"].s
           else DefaultDescription))
  {
    var a := Package(map["game_info" := JObject(info)]);
    assert DescriptorName in a.entries;
    assert GameInfo(a.entries[DescriptorName].doc) == Some(info);
  }

  /** Falsy JSON values follow the code's truth tests: a falsy name is refused as
      missing whatever the other fields hold, and, when the form gives no description,
      a falsy descriptor description falls back to the default. */
  lemma FalsyFields(info: map<string, Json>, form: Option<string>, falsy: Json)
    requires falsy == JOther(false) || falsy == JObject(map[]) || falsy == JString("")
    ensures ReadDescriptor(Package(map["game_info" := JObject(info["name" := falsy])]), form) == Failure(NoName)
    ensures (forall k :: k in info ==> info[k].JString?) && "name" in info && info["name"].s != "" ==>
      var r := ReadDescriptor(Package(map["game_info" := JObject(info["description" := falsy])]), form);
      r.Success? && r.value.description == if Present(form) then form.value else DefaultDescription
  {
    var a := Package(map["game_info" := JObject(info["name" := falsy])]);
    assert DescriptorName in a.entries;
    assert GameInfo(a.entries[DescriptorName].doc) == Some(info["name" := falsy]);
    var b := Package(map["game_info" := JObject(info["description" := falsy])]);
    assert DescriptorName in b.entries;
    assert GameInfo(b.entries[DescriptorName].doc) == Some(info["description" := falsy]);
  }

  /** A document without `game_info` has no name; one whose `game_info` (or itself) is
      not an object fails with an AttributeError. */
  lemma ReadDescriptorShapes(doc: map<string, Json>, other: Json, form: Option<string>)
    requires !other.JObject?
    ensures "game_info" !in doc ==> ReadDescriptor(Package(doc), form) == Failure(NoName)
    ensures ReadDescriptor(Package(doc["game_info" := other]), form) == Failure(NotAnObject)
    ensures ReadDescriptor(Zip(map[DescriptorName := Decoded(other)]), form) == Failure(NotAnObject)
  {
    assert DescriptorName in Package(doc).entries;
    assert DescriptorName in Package(doc["game_info" := other]).entries;
    assert DescriptorName in Zip(map[DescriptorName := Decoded(other)]).entries;
    if "game_info" !in doc {
      assert GameInfo(JObject(doc)) == Some(map[]);
      assert FieldOf(map[], "name") == Missing;
      assert FieldOf(map[], "description") == Missing;
    }
  }
}
