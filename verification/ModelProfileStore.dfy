/** The persisted set of model profiles: saving, deleting, listing and resolving. */
module ModelProfileStore {
  import opened Prelude
  import opened Text
  import opened ModelProfile

  const DEFAULT_NAME := "default"

  /** The embedding provider configured in the environment, if any. */
  datatype Remote = Remote(echo: bool, model: string, baseUrl: string, apiKey: string)

  function FromRuntime(remote: Option<Remote>): Option<Profile> {
    if remote.None? then None
    else Some(Profile(if remote.value.echo then Echo else OpenAiCompatible, remote.value.model, remote.value.baseUrl,
                      Some(remote.value.apiKey), [], None, Sampling(0.7, 1.0, 30.0), Capabilities({"input.text", "output.text"}),
                      true, "environment"))
  }

  datatype File = File(defaultProfile: Option<string>, profiles: map<string, Profile>)

  const EMPTY := File(None, map[])

  datatype Response = Response(defaultProfile: Option<string>, views: map<string, View>)

  predicate NameChar(c: char) {
    IsLetter(c) || IsDigit(c) || c == '-' || c == '_' || c == '.'
  }

  function ValidName(name: string): Option<string> {
    var trimmed := Trim(name);
    if trimmed == "" || |trimmed| > 80 || exists c | c in trimmed :: !NameChar(c) then None else Some(trimmed)
  }

  lemma ValidNamesAreStable(name: string)
    ensures ValidName(name).Some? ==> ValidName(ValidName(name).value) == ValidName(name)
  {
    TrimYieldsTrimmed(name);
    if Trimmed(Trim(name)) { TrimmedStays(Trim(name)); }
  }

  // ----- Saving

  /** Every flag says whether its profile is the default one. */
  function Reflagged(profiles: map<string, Profile>, chosen: Option<string>): map<string, Profile> {
    map name | name in profiles :: profiles[name].(isDefault := chosen == Some(name))
  }

  /** The profile a save starts from: the stored one, or the environment's while nothing was ever saved. */
  function MergeBase(file: File, name: string, remote: Option<Remote>): Option<Profile> {
    if name in file.profiles then Some(file.profiles[name])
    else if file.profiles != map[] || file.defaultProfile.Some? || name != DEFAULT_NAME then None
    else FromRuntime(remote)
  }

  /** The file with one profile set, which becomes the default one if it is chosen. */
  function WithProfile(file: File, name: string, profile: Profile, chosen: bool): File {
    var profiles := file.profiles[name := profile];
    if chosen then File(Some(name), Reflagged(profiles, Some(name))) else File(file.defaultProfile, profiles)
  }

  function Saved(syntax: HeaderSyntax, stored: Option<File>, name: string, request: SaveRequest, remote: Option<Remote>)
    : Result<File, Error>
  {
    var valid := ValidName(name);
    if valid.None? then Err(InvalidProfileName)
    else
      var file := if stored.Some? then stored.value else EMPTY;
      var profile := FromSaveRequest(syntax, request, MergeBase(file, valid.value, remote));
      if profile.Err? then Err(profile.error)
      else Ok(WithProfile(file, valid.value, profile.value, request.isDefault || file.defaultProfile.None?))
  }

  function Deleted(stored: Option<File>, name: string): Result<File, Error> {
    var valid := ValidName(name);
    if valid.None? then Err(InvalidProfileName)
    else
      var file := if stored.Some? then stored.value else EMPTY;
      var profiles := file.profiles - {valid.value};
      var chosen :=
        if file.defaultProfile != valid then file.defaultProfile
        else if profiles == map[] then None else Some(First(profiles.Keys));
      Ok(File(chosen, Reflagged(profiles, chosen)))
  }

  /** The listing: the environment's profile stands in while nothing is stored. */
  function Listed(stored: Option<File>, remote: Option<Remote>): (profiles: map<string, Profile>) {
    if stored.Some? && stored.value.profiles != map[] then stored.value.profiles
    else if remote.Some? then map[DEFAULT_NAME := FromRuntime(remote).value] else map[]
  }

  function ProfileResponse(stored: Option<File>, remote: Option<Remote>): Response {
    var profiles := Listed(stored, remote);
    var chosen :=
      if stored.Some? && stored.value.defaultProfile.Some? then stored.value.defaultProfile
      else if profiles == map[] then None else Some(First(profiles.Keys));
    Response(chosen, map name | name in profiles :: ToView(profiles[name], chosen == Some(name) || profiles[name].isDefault))
  }

  // ----- Resolving

  function ResolveByName(stored: Option<File>, remote: Option<Remote>, name: string): Result<Profile, Error> {
    var valid := ValidName(name);
    if valid.None? then Err(InvalidProfileName)
    else if stored.Some? && valid.value in stored.value.profiles then Ok(stored.value.profiles[valid.value])
    else if valid.value == DEFAULT_NAME && remote.Some? then Ok(FromRuntime(remote).value)
    else Err(UnknownProfile)
  }

  function ResolveDefault(stored: Option<File>, remote: Option<Remote>): Result<Profile, Error> {
    var chosen := ProfileResponse(stored, remote).defaultProfile;
    if chosen.None? then Err(NoProfile) else ResolveByName(stored, remote, chosen.value)
  }

  /** The profile a probe runs with: a named one or the default one, with or without unsaved edits. */
  function ResolveProbe(syntax: HeaderSyntax, stored: Option<File>, remote: Option<Remote>, name: Option<string>,
                        edits: Option<SaveRequest>): Result<Profile, Error> {
    if name.Some? then
      var base := ResolveByName(stored, remote, name.value);
      if base.Err? || edits.None? then base else FromSaveRequest(syntax, edits.value, Some(base.value))
    else
      var base := ResolveDefault(stored, remote);
      if edits.None? then base
      else if base.Ok? then FromSaveRequest(syntax, edits.value, Some(base.value))
      else if base.error == NoProfile then FromSaveRequest(syntax, edits.value, None)
      else base
  }

  // ----- The service

  class Service {
    /** The profile file on disk; None while it does not exist. */
    var file: Option<File>
    const syntax: HeaderSyntax

    constructor (syntax: HeaderSyntax)
      ensures file == None && this.syntax == syntax
    {
      file := None;
      this.syntax := syntax;
    }

    method SaveProfile(name: string, request: SaveRequest, remote: Option<Remote>) returns (result: Result<Response, Error>)
      modifies this
      ensures var saved := Saved(syntax, old(file), name, request, remote);
        && file == (if saved.Ok? then Some(saved.value) else old(file))
        && result == if saved.Ok? then Ok(ProfileResponse(file, remote)) else Err(saved.error)
    {
      var valid := ValidName(name);
      if valid.None? { return Err(InvalidProfileName); }
      var current := if file.Some? then file.value else EMPTY;
      var existing := MergeBase(current, valid.value, remote);
      var isDefault := request.isDefault || current.defaultProfile.None?;
      var stored := FromSaveRequest(syntax, request, existing);
      if stored.Err? { return Err(stored.error); }
      current := current.(profiles := current.profiles[valid.value := stored.value]);
      if isDefault {
        var profiles := ResetFlags(current.profiles, valid);
        current := File(valid, profiles);
      }
      file := Some(current);
      result := Ok(ProfileResponse(file, remote));
    }

    method DeleteProfile(name: string, remote: Option<Remote>) returns (result: Result<Response, Error>)
      modifies this
      ensures var deleted := Deleted(old(file), name);
        && file == (if deleted.Ok? then Some(deleted.value) else old(file))
        && result == if deleted.Ok? then Ok(ProfileResponse(file, remote)) else Err(deleted.error)
    {
      var valid := ValidName(name);
      if valid.None? { return Err(InvalidProfileName); }
      var current := if file.Some? then file.value else EMPTY;
      current := current.(profiles := current.profiles - {valid.value});
      if current.defaultProfile == valid {
        current := current.(defaultProfile := if current.profiles == map[] then None else Some(First(current.profiles.Keys)));
      }
      var profiles := ResetFlags(current.profiles, current.defaultProfile);
      file := Some(current.(profiles := profiles));
      result := Ok(ProfileResponse(file, remote));
    }
  }

  /** The loop over the stored profiles that sets each flag in place. */
  method ResetFlags(profiles: map<string, Profile>, chosen: Option<string>) returns (reset: map<string, Profile>)
    ensures reset == Reflagged(profiles, chosen)
  {
    reset := profiles;
    var left := profiles.Keys;
    while left != {}
      invariant left <= profiles.Keys == reset.Keys
      invariant forall name | name in profiles ::
                  reset[name] == if name in left then profiles[name] else profiles[name].(isDefault := chosen == Some(name))
      decreases left
    {
      var name :| name in left;
      reset := reset[name := reset[name].(isDefault := chosen == Some(name))];
      left := left - {name};
    }
  }

  // ----- What every run keeps

  /** The default is set exactly when profiles exist, is one of them, and no other carries the flag. */
  ghost predicate FileOk(syntax: HeaderSyntax, file: File) {
    && (file.defaultProfile.Some? <==> file.profiles != map[])
    && (file.defaultProfile.Some? ==> file.defaultProfile.value in file.profiles)
    && (forall name | name in file.profiles :: file.profiles[name].isDefault ==> file.defaultProfile == Some(name))
    && (forall name | name in file.profiles :: ValidName(name) == Some(name) && ProfileOk(syntax, file.profiles[name]))
  }

  ghost predicate StoreOk(syntax: HeaderSyntax, stored: Option<File>) {
    stored.Some? ==> FileOk(syntax, stored.value)
  }

  lemma SaveKeepsFileOk(syntax: HeaderSyntax, stored: Option<File>, name: string, request: SaveRequest, remote: Option<Remote>)
    requires StoreOk(syntax, stored) && Saved(syntax, stored, name, request, remote).Ok?
    ensures FileOk(syntax, Saved(syntax, stored, name, request, remote).value)
  {
    var file := if stored.Some? then stored.value else EMPTY;
    assert FileOk(syntax, file);
    hide FromSaveRequest, ProfileOk, FileOk, MergeBase, ValidName, WithProfile;
    var valid := ValidName(name).value;
    var base := MergeBase(file, valid, remote);
    ValidNamesAreStable(name);
    MergeBaseHeadersOk(syntax, file, valid, remote);
    SavedProfileIsOk(syntax, request, base);
    SavedFlag(syntax, request, base);
    var profile := FromSaveRequest(syntax, request, base).value;
    WithProfileIsOk(syntax, file, valid, profile, request.isDefault || file.defaultProfile.None?);
  }

  lemma WithProfileIsOk(syntax: HeaderSyntax, file: File, name: string, profile: Profile, chosen: bool)
    requires FileOk(syntax, file) && ProfileOk(syntax, profile) && ValidName(name) == Some(name)
    requires (profile.isDefault ==> chosen) && (file.defaultProfile.None? ==> chosen)
    ensures FileOk(syntax, WithProfile(file, name, profile, chosen))
  {
    hide ProfileOk, ValidName;
    var profiles := file.profiles[name := profile];
    assert name in profiles;
    assert forall other | other in profiles :: ValidName(other) == Some(other) && ProfileOk(syntax, profiles[other]);
    ReflaggedIsOk(syntax, profiles, Some(name));
    assert name in WithProfile(file, name, profile, chosen).profiles;
  }

  lemma MergeBaseHeadersOk(syntax: HeaderSyntax, file: File, name: string, remote: Option<Remote>)
    requires FileOk(syntax, file)
    ensures MergeBase(file, name, remote).Some? ==> HeadersOk(syntax, MergeBase(file, name, remote).value.headers)
  {
  }

  lemma SavedFlag(syntax: HeaderSyntax, request: SaveRequest, existing: Option<Profile>)
    requires FromSaveRequest(syntax, request, existing).Ok?
    ensures FromSaveRequest(syntax, request, existing).value.isDefault == request.isDefault
  {
  }

  lemma ReflaggedIsOk(syntax: HeaderSyntax, profiles: map<string, Profile>, chosen: Option<string>)
    requires forall name | name in profiles :: ProfileOk(syntax, profiles[name])
    ensures Reflagged(profiles, chosen).Keys == profiles.Keys
    ensures forall name | name in profiles :: ProfileOk(syntax, Reflagged(profiles, chosen)[name])
  {
  }

  lemma DeleteKeepsFileOk(syntax: HeaderSyntax, stored: Option<File>, name: string)
    requires StoreOk(syntax, stored) && Deleted(stored, name).Ok?
    ensures FileOk(syntax, Deleted(stored, name).value)
  {
    var file := if stored.Some? then stored.value else EMPTY;
    var profiles := file.profiles - {ValidName(name).value};
    var after := Deleted(stored, name).value;
    ReflaggedIsOk(syntax, profiles, after.defaultProfile);
    if file.defaultProfile.Some? && file.defaultProfile != ValidName(name) {
      assert file.defaultProfile.value in profiles;
    }
    assert profiles != map[] <==> profiles.Keys != {};
    assert after.profiles != map[] <==> after.profiles.Keys != {};
  }

  /** One request to the service, with the environment it finds. */
  datatype Operation =
    | Save(name: string, request: SaveRequest, remote: Option<Remote>)
    | Delete(name: string)

  function Perform(syntax: HeaderSyntax, stored: Option<File>, op: Operation): Option<File> {
    var after := if op.Save? then Saved(syntax, stored, op.name, op.request, op.remote) else Deleted(stored, op.name);
    if after.Ok? then Some(after.value) else stored
  }

  /** The file after a run of requests that finds none at first. */
  function Run(syntax: HeaderSyntax, ops: seq<Operation>): Option<File> {
    if ops == [] then None else Perform(syntax, Run(syntax, ops[..|ops| - 1]), ops[|ops| - 1])
  }

  lemma {:induction false} RunsKeepStoreOk(syntax: HeaderSyntax, ops: seq<Operation>)
    ensures StoreOk(syntax, Run(syntax, ops))
  {
    if ops != [] {
      hide Saved, Deleted, FileOk;
      var before, op := Run(syntax, ops[..|ops| - 1]), ops[|ops| - 1];
      RunsKeepStoreOk(syntax, ops[..|ops| - 1]);
      if op.Save? {
        if Saved(syntax, before, op.name, op.request, op.remote).Ok? {
          SaveKeepsFileOk(syntax, before, op.name, op.request, op.remote);
        }
      } else if Deleted(before, op.name).Ok? {
        DeleteKeepsFileOk(syntax, before, op.name);
      }
    }
  }

  // ----- Consequences

  /** After any run a listing that shows anything shows exactly one default profile, the one it names. */
  lemma ListingHasOneDefault(syntax: HeaderSyntax, ops: seq<Operation>, remote: Option<Remote>)
    ensures var shown := ProfileResponse(Run(syntax, ops), remote);
      && (shown.defaultProfile.Some? <==> shown.views != map[])
      && forall name | name in shown.views :: shown.views[name].isDefault <==> shown.defaultProfile == Some(name)
    ensures var shown := ProfileResponse(Run(syntax, ops), remote);
      shown.views != map[] ==> shown.defaultProfile.value in shown.views
  {
    hide ToView;
    RunsKeepStoreOk(syntax, ops);
    var stored := Run(syntax, ops);
    var shown := ProfileResponse(stored, remote);
    var profiles := Listed(stored, remote);
    assert shown.views.Keys == profiles.Keys;
    assert shown.views != map[] <==> shown.views.Keys != {};
    assert profiles != map[] <==> profiles.Keys != {};
    forall name | name in profiles
      ensures shown.views[name].isDefault <==> (shown.defaultProfile == Some(name) || profiles[name].isDefault)
    {
      ViewShowsFlag(profiles[name], shown.defaultProfile == Some(name) || profiles[name].isDefault);
    }
  }

  lemma ViewShowsFlag(p: Profile, isDefault: bool)
    ensures ToView(p, isDefault).isDefault == isDefault
  {
  }

  /** Resolving the default works exactly when something is stored or the environment provides a profile. */
  lemma DefaultResolves(syntax: HeaderSyntax, ops: seq<Operation>, remote: Option<Remote>)
    ensures var stored := Run(syntax, ops);
      && (ResolveDefault(stored, remote).Ok? <==> (stored.Some? && stored.value.profiles != map[]) || remote.Some?)
      && (ResolveDefault(stored, remote).Err? ==> ResolveDefault(stored, remote).error == NoProfile)
      && (stored.Some? && stored.value.profiles != map[] ==>
            stored.value.defaultProfile.Some? && stored.value.defaultProfile.value in stored.value.profiles
            && ResolveDefault(stored, remote) == Ok(stored.value.profiles[stored.value.defaultProfile.value]))
  {
    RunsKeepStoreOk(syntax, ops);
    hide ProfileOk, ToView, FromSaveRequest;
    var stored := Run(syntax, ops);
    if (stored.None? || stored.value.profiles == map[]) && remote.Some? {
      assert Listed(stored, remote).Keys == {DEFAULT_NAME};
      DefaultNameIsValid();
    }
  }

  lemma DefaultNameIsValid()
    ensures ValidName(DEFAULT_NAME) == Some(DEFAULT_NAME)
  {
    TrimmedStays(DEFAULT_NAME);
  }

  /** Saving a profile's own listed view over it keeps every secret, every other profile and the choice of default. */
  lemma ResavingTheViewKeepsSecrets(syntax: HeaderSyntax, ops: seq<Operation>, name: string, remote: Option<Remote>)
    requires Run(syntax, ops).Some? && name in Run(syntax, ops).value.profiles
    ensures name in ProfileResponse(Run(syntax, ops), remote).views
    ensures var file := Run(syntax, ops).value;
      var view := ProfileResponse(Some(file), remote).views[name];
      var again := Saved(syntax, Some(file), name, Resubmission(view), remote);
      && (again.Ok? <==> HasScheme(file.profiles[name].baseUrl))
      && (again.Ok? ==>
            && again.value.defaultProfile == file.defaultProfile
            && again.value.profiles.Keys == file.profiles.Keys
            && again.value.profiles[name].apiKey == file.profiles[name].apiKey
            && again.value.profiles[name].headers == file.profiles[name].headers
            && forall other | other in file.profiles && other != name ::
                 again.value.profiles[other] == file.profiles[other])
  {
    RunsKeepStoreOk(syntax, ops);
    hide FromSaveRequest, ToView, ProfileOk, Saved, ProfileResponse, FileOk;
    var file := Run(syntax, ops).value;
    var p := file.profiles[name];
    var flag := file.defaultProfile == Some(name) || p.isDefault;
    ListedView(syntax, file, name, remote);
    ResubmissionIsLossless(syntax, p, flag) by { StoredProfileIsOk(syntax, file, name); }
    SavingTheView(syntax, file, name, flag, remote);
  }

  lemma StoredProfileIsOk(syntax: HeaderSyntax, file: File, name: string)
    requires FileOk(syntax, file) && name in file.profiles
    ensures ProfileOk(syntax, file.profiles[name]) && ValidName(name) == Some(name)
    ensures file.defaultProfile.Some? && (file.profiles[name].isDefault ==> file.defaultProfile == Some(name))
  {
  }

  lemma ListedView(syntax: HeaderSyntax, file: File, name: string, remote: Option<Remote>)
    requires name in file.profiles && FileOk(syntax, file)
    ensures var shown := ProfileResponse(Some(file), remote).views;
      && name in shown
      && shown[name] == ToView(file.profiles[name], file.defaultProfile == Some(name) || file.profiles[name].isDefault)
  {
    StoredProfileIsOk(syntax, file, name);
    assert Listed(Some(file), remote) == file.profiles;
  }

  lemma SavedOverStored(syntax: HeaderSyntax, file: File, name: string, request: SaveRequest, remote: Option<Remote>)
    requires ValidName(name) == Some(name) && name in file.profiles && file.defaultProfile.Some?
    ensures var stored := FromSaveRequest(syntax, request, Some(file.profiles[name]));
      Saved(syntax, Some(file), name, request, remote) ==
        if stored.Err? then Err(stored.error) else Ok(WithProfile(file, name, stored.value, request.isDefault))
  {
    hide FromSaveRequest, ValidName, WithProfile;
    assert MergeBase(file, name, remote) == Some(file.profiles[name]);
  }

  /** Saving over a stored profile: it takes the new contents, and at most the flags of the others change. */
  lemma WithProfileOverStored(file: File, name: string, profile: Profile, chosen: bool)
    requires name in file.profiles
    ensures var after := WithProfile(file, name, profile, chosen);
      && after.profiles.Keys == file.profiles.Keys
      && after.defaultProfile == (if chosen then Some(name) else file.defaultProfile)
      && after.profiles[name] == (if chosen then profile.(isDefault := true) else profile)
      && forall other | other in file.profiles && other != name ::
           after.profiles[other] == if chosen then file.profiles[other].(isDefault := false) else file.profiles[other]
  {
    assert file.profiles[name := profile].Keys == file.profiles.Keys;
  }

  lemma SavingTheView(syntax: HeaderSyntax, file: File, name: string, flag: bool, remote: Option<Remote>)
    requires FileOk(syntax, file) && name in file.profiles
    requires flag <==> file.defaultProfile == Some(name) || file.profiles[name].isDefault
    ensures var request := Resubmission(ToView(file.profiles[name], flag));
      var again := Saved(syntax, Some(file), name, request, remote);
      var stored := FromSaveRequest(syntax, request, Some(file.profiles[name]));
      && (again.Ok? <==> stored.Ok?)
      && (again.Ok? ==>
            && again.value.profiles.Keys == file.profiles.Keys
            && again.value.defaultProfile == file.defaultProfile
            && again.value.profiles[name].apiKey == stored.value.apiKey
            && again.value.profiles[name].headers == stored.value.headers
            && forall other | other in file.profiles && other != name ::
                 again.value.profiles[other] == file.profiles[other])
  {
    var p := file.profiles[name];
    var request := Resubmission(ToView(p, flag));
    assert request.isDefault == flag by {
      ViewShowsFlag(p, flag);
      ResubmissionFlag(ToView(p, flag));
    }
    StoredProfileIsOk(syntax, file, name);
    hide FromSaveRequest, ToView, Saved, ProfileOk, Resubmission, ValidName, WithProfile;
    SavedOverStored(syntax, file, name, request, remote);
    var stored := FromSaveRequest(syntax, request, Some(p));
    if stored.Ok? { WithProfileOverStored(file, name, stored.value, flag); }
    forall other | other in file.profiles && other != name && flag ensures !file.profiles[other].isDefault {
      OtherFlagIsOff(syntax, file, other);
    }
  }

  lemma ResubmissionFlag(v: View)
    ensures Resubmission(v).isDefault == v.isDefault
  {
  }

  lemma OtherFlagIsOff(syntax: HeaderSyntax, file: File, other: string)
    requires FileOk(syntax, file) && other in file.profiles
    ensures file.defaultProfile != Some(other) ==> !file.profiles[other].isDefault
  {
  }

  /**
   While nothing is stored the listing shows the environment's profile. Saving that view keeps the environment's key;
   it is accepted exactly when the model name is not blank and the redacted URL is one that can be stored.
   */
  lemma SavingTheEnvironmentViewKeepsItsKey(syntax: HeaderSyntax, ops: seq<Operation>, remote: Remote)
    requires Run(syntax, ops).Some? ==> Run(syntax, ops).value.profiles == map[]
    ensures ProfileResponse(Run(syntax, ops), Some(remote)).views.Keys == {DEFAULT_NAME}
    ensures var view := ProfileResponse(Run(syntax, ops), Some(remote)).views[DEFAULT_NAME];
      var saved := Saved(syntax, Run(syntax, ops), DEFAULT_NAME, Resubmission(view), Some(remote));
      && (saved.Ok? <==>
            NonBlank(remote.model).Some? && NormalizedBaseUrl(view.provider, Some(RedactedUrl(remote.baseUrl))).Ok?)
      && (saved.Ok? ==>
            && saved.value.defaultProfile == Some(DEFAULT_NAME)
            && saved.value.profiles.Keys == {DEFAULT_NAME}
            && saved.value.profiles[DEFAULT_NAME].apiKey == Some(remote.apiKey)
            && saved.value.profiles[DEFAULT_NAME].headers == [])
  {
    RunsKeepStoreOk(syntax, ops);
    var stored := Run(syntax, ops);
    var p := FromRuntime(Some(remote)).value;
    assert Listed(stored, Some(remote)) == map[DEFAULT_NAME := p];
    EnvironmentView(stored, remote);
    DefaultNameIsValid();
    EnvironmentIsAccepted(syntax, remote, true);
    hide FromSaveRequest, ToView, Resubmission, ValidName, ProfileResponse;
    var file := if stored.Some? then stored.value else EMPTY;
    assert MergeBase(file, DEFAULT_NAME, Some(remote)) == Some(p);
  }

  lemma EnvironmentView(stored: Option<File>, remote: Remote)
    requires stored.Some? ==> stored.value == EMPTY
    ensures ProfileResponse(stored, Some(remote)).views == map[DEFAULT_NAME := ToView(FromRuntime(Some(remote)).value, true)]
  {
  }

  lemma EnvironmentIsAccepted(syntax: HeaderSyntax, remote: Remote, flag: bool)
    ensures var p := FromRuntime(Some(remote)).value;
      var again := FromSaveRequest(syntax, Resubmission(ToView(p, flag)), Some(p));
      && (again.Ok? <==> NonBlank(remote.model).Some? && NormalizedBaseUrl(p.provider, Some(RedactedUrl(remote.baseUrl))).Ok?)
      && (again.Ok? ==> again.value.apiKey == p.apiKey && again.value.headers == [] && again.value.isDefault == flag)
  {
    hide NonBlank, NormalizedBaseUrl, RedactedUrl;
  }

  /** Probing a stored profile with the unedited form runs with the stored secrets, named or as the default. */
  lemma ProbingTheViewUsesSecrets(syntax: HeaderSyntax, ops: seq<Operation>, name: string, flag: bool, remote: Option<Remote>)
    requires Run(syntax, ops).Some? && name in Run(syntax, ops).value.profiles
    ensures var stored := Run(syntax, ops);
      var p := stored.value.profiles[name];
      var edits := Some(Resubmission(ToView(p, flag)));
      var named := ResolveProbe(syntax, stored, remote, Some(name), edits);
      && (named.Ok? <==> HasScheme(p.baseUrl))
      && (named.Ok? ==> named.value.apiKey == p.apiKey && named.value.headers == p.headers && named.value.model == p.model)
      && (stored.value.defaultProfile == Some(name) ==> ResolveProbe(syntax, stored, remote, None, edits) == named)
  {
    RunsKeepStoreOk(syntax, ops);
    DefaultResolves(syntax, ops, remote);
    var p := Run(syntax, ops).value.profiles[name];
    assert ProfileOk(syntax, p) && ValidName(name) == Some(name);
    hide FromSaveRequest, ToView, ProfileOk, ValidName, Run, FileOk;
    ResubmissionIsLossless(syntax, p, flag);
  }
}
