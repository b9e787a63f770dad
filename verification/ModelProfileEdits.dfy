/** What a save and a delete change in the store, and what resolving and listing then find. */
module ModelProfileEdits {
  import opened Prelude
  import opened Text
  import opened ModelProfile
  import opened ModelProfileStore

  /** Names are trimmed; 1 to 80 letters, digits, hyphens, underscores and dots are left. */
  predicate NameOk(name: string) {
    && 1 <= |name| <= 80
    && forall k | 0 <= k < |name| ::
         'a' <= name[k] <= 'z' || 'A' <= name[k] <= 'Z' || '0' <= name[k] <= '9' || name[k] in "-_."
  }

  lemma ValidNameIs(name: string)
    ensures ValidName(name) == if NameOk(Trim(name)) then Some(Trim(name)) else None
  {
    hide Trim;
    var trimmed := Trim(name);
    assert forall k | 0 <= k < |trimmed| :: trimmed[k] in trimmed;
  }

  /** The profiles of a file; none while there is no file. */
  function Profiles(stored: Option<File>): map<string, Profile> {
    if stored.Some? then stored.value.profiles else map[]
  }

  function Default(stored: Option<File>): Option<string> {
    if stored.Some? then stored.value.defaultProfile else None
  }

  predicate SameButFlag(a: Profile, b: Profile) {
    a.(isDefault := b.isDefault) == b
  }

  /** `name` is one of the names and comes before all others. */
  ghost predicate Least(names: set<string>, name: string) {
    name in names && forall other | other in names :: other == name || exists k :: FirstLessAt(name, other, k)
  }

  lemma FirstIsLeast(names: set<string>)
    requires names != {}
    ensures Least(names, First(names))
  {
    forall other | other in names ensures other == First(names) || exists k :: FirstLessAt(First(names), other, k) {
      AtMostMeans(First(names), other);
    }
  }

  lemma ReflaggedAre(profiles: map<string, Profile>, chosen: Option<string>)
    ensures Reflagged(profiles, chosen).Keys == profiles.Keys
    ensures forall name | name in profiles ::
      var p := Reflagged(profiles, chosen)[name]; SameButFlag(profiles[name], p) && (p.isDefault <==> chosen == Some(name))
  {
  }

  /**
   A delete removes the named profile and no other. The default stays, unless it was the deleted one: then it is the
   least remaining name, or none. Every flag says whether its profile is the default.
   */
  lemma DeleteRemovesTheProfile(stored: Option<File>, name: string)
    ensures Deleted(stored, name).Ok? <==> NameOk(Trim(name))
    ensures Deleted(stored, name).Ok? ==>
      var was, after, gone := Profiles(stored), Deleted(stored, name).value, Trim(name);
      && after.profiles.Keys == was.Keys - {gone}
      && (forall other | other in after.profiles ::
            SameButFlag(was[other], after.profiles[other])
            && (after.profiles[other].isDefault <==> after.defaultProfile == Some(other)))
      && (Default(stored) != Some(gone) ==> after.defaultProfile == Default(stored))
      && (Default(stored) == Some(gone) && was.Keys - {gone} == {} ==> after.defaultProfile == None)
      && (Default(stored) == Some(gone) && was.Keys - {gone} != {} ==>
            after.defaultProfile.Some? && Least(was.Keys - {gone}, after.defaultProfile.value))
  {
    ValidNameIs(name);
    hide ValidName, NameOk, Trim, Least, SameButFlag;
    if NameOk(Trim(name)) {
      var gone := Trim(name);
      var profiles := Profiles(stored) - {gone};
      assert profiles.Keys == Profiles(stored).Keys - {gone};
      assert profiles == map[] <==> profiles.Keys == {};
      if profiles.Keys != {} { FirstIsLeast(profiles.Keys); }
      ReflaggedAre(profiles, Deleted(stored, name).value.defaultProfile);
      hide Reflagged, First;
    }
  }

  /** The deleted name resolves to nothing, except that the environment's profile answers to `default`. */
  lemma DeletedIsGone(stored: Option<File>, name: string, remote: Option<Remote>)
    requires Deleted(stored, name).Ok?
    ensures ResolveByName(Some(Deleted(stored, name).value), remote, name) ==
      if Trim(name) == "default" && remote.Some? then Ok(FromRuntime(remote).value) else Err(UnknownProfile)
  {
    ValidNameIs(name);
    DeleteRemovesTheProfile(stored, name);
    hide Deleted, Trim, NameOk, ValidName;
  }

  /** A stored name resolves to its profile. */
  lemma StoredResolves(file: File, name: string, remote: Option<Remote>)
    requires NameOk(Trim(name)) && Trim(name) in file.profiles
    ensures ResolveByName(Some(file), remote, name) == Ok(file.profiles[Trim(name)])
  {
    ValidNameIs(name);
  }

  /** The profile a save starts from: the stored one, or the environment's for `default` while nothing is stored. */
  function Base(stored: Option<File>, name: string, remote: Option<Remote>): Option<Profile> {
    if name in Profiles(stored) then Some(Profiles(stored)[name])
    else if Profiles(stored) == map[] && Default(stored) == None && name == "default" then FromRuntime(remote)
    else None
  }

  /**
   A save stores the profile under the trimmed name and touches no other, up to its flag. It becomes the default when it
   asks to be or when there was none, and only then do the flags change.
   */
  lemma SaveStoresTheProfile(syntax: HeaderSyntax, stored: Option<File>, name: string, request: SaveRequest, remote: Option<Remote>)
    ensures var saved := Saved(syntax, stored, name, request, remote);
      var profile := FromSaveRequest(syntax, request, Base(stored, Trim(name), remote));
      && (saved.Ok? <==> NameOk(Trim(name)) && profile.Ok?)
      && (saved.Ok? ==>
            var was, after, own := Profiles(stored), saved.value, Trim(name);
            var chosen := request.isDefault || Default(stored).None?;
            && after.profiles.Keys == was.Keys + {own}
            && after.defaultProfile == (if chosen then Some(own) else Default(stored))
            && SameButFlag(profile.value, after.profiles[own])
            && (forall other | other in was && other != own :: SameButFlag(was[other], after.profiles[other]))
            && (chosen ==> forall other | other in after.profiles :: after.profiles[other].isDefault <==> other == own)
            && (!chosen ==> after.profiles[own] == profile.value)
            && (!chosen ==> forall other | other in was && other != own :: after.profiles[other] == was[other]))
  {
    ValidNameIs(name);
    hide ValidName, NameOk, Trim, FromSaveRequest, SameButFlag;
    var own := Trim(name);
    assert MergeBase(if stored.Some? then stored.value else EMPTY, own, remote) == Base(stored, own, remote);
    var profile := FromSaveRequest(syntax, request, Base(stored, own, remote));
    if NameOk(own) && profile.Ok? {
      var profiles := Profiles(stored)[own := profile.value];
      SavedIs(syntax, stored, name, request, remote, profile.value);
      ReflaggedAre(profiles, Some(own));
      assert profiles.Keys == Profiles(stored).Keys + {own};
      SameProfile(profile.value);
      forall other | other in Profiles(stored) ensures SameButFlag(Profiles(stored)[other], Profiles(stored)[other]) {
        SameProfile(Profiles(stored)[other]);
      }
      hide Saved, Reflagged, MergeBase;
    }
  }

  lemma SameProfile(p: Profile)
    ensures SameButFlag(p, p)
  {
  }

  lemma SavedIs(syntax: HeaderSyntax, stored: Option<File>, name: string, request: SaveRequest, remote: Option<Remote>, profile: Profile)
    requires ValidName(name) == Some(Trim(name))
    requires FromSaveRequest(syntax, request, Base(stored, Trim(name), remote)) == Ok(profile)
    ensures var own := Trim(name);
      var profiles := Profiles(stored)[own := profile];
      Saved(syntax, stored, name, request, remote) == Ok(
        if request.isDefault || Default(stored).None? then File(Some(own), Reflagged(profiles, Some(own)))
        else File(Default(stored), profiles))
  {
    hide ValidName, Trim, FromSaveRequest, Reflagged;
    assert MergeBase(if stored.Some? then stored.value else EMPTY, Trim(name), remote) == Base(stored, Trim(name), remote);
  }

  /** The environment's profile, field by field. */
  lemma EnvironmentProfileIs(remote: Remote)
    ensures FromRuntime(None) == None
    ensures FromRuntime(Some(remote)).Some?
    ensures var p := FromRuntime(Some(remote)).value;
      && p.provider == (if remote.echo then Echo else OpenAiCompatible)
      && p.model == remote.model && p.baseUrl == remote.baseUrl && p.apiKey == Some(remote.apiKey)
      && p.headers == [] && p.sslVerify == None && p.sampling == Sampling(0.7, 1.0, 30.0)
      && p.capabilities == Capabilities({"input.text", "output.text"})
      && p.isDefault && p.source == "environment"
  {
  }

  /** The listing shows the view of every stored profile, or while there is none of the environment's as `default`. */
  lemma ListingShows(stored: Option<File>, remote: Option<Remote>)
    ensures var shown := ProfileResponse(stored, remote);
      var listed := if Profiles(stored) != map[] then Profiles(stored)
        else if remote.Some? then map["default" := FromRuntime(remote).value] else map[];
      && shown.views.Keys == listed.Keys
      && (forall name | name in listed ::
            shown.views[name] == ToView(listed[name], shown.defaultProfile == Some(name) || listed[name].isDefault))
      && (Default(stored).Some? ==> shown.defaultProfile == Default(stored))
      && (Default(stored).None? && listed.Keys == {} ==> shown.defaultProfile == None)
      && (Default(stored).None? && listed.Keys != {} ==>
            shown.defaultProfile.Some? && Least(listed.Keys, shown.defaultProfile.value))
  {
    hide ToView, FromRuntime, Least;
    var listed := Listed(stored, remote);
    assert listed == map[] <==> listed.Keys == {};
    if listed.Keys != {} { FirstIsLeast(listed.Keys); }
    hide First;
  }

  /** A probe runs with the named or the default profile, as edited if there are edits; alone without a base if none exists. */
  lemma ProbeRunsWith(syntax: HeaderSyntax, stored: Option<File>, remote: Option<Remote>, name: string, edits: SaveRequest)
    ensures ResolveProbe(syntax, stored, remote, Some(name), None) == ResolveByName(stored, remote, name)
    ensures ResolveProbe(syntax, stored, remote, None, None) == ResolveDefault(stored, remote)
    ensures var base := ResolveByName(stored, remote, name);
      ResolveProbe(syntax, stored, remote, Some(name), Some(edits)) ==
        if base.Ok? then FromSaveRequest(syntax, edits, Some(base.value)) else base
    ensures var base := ResolveDefault(stored, remote);
      ResolveProbe(syntax, stored, remote, None, Some(edits)) ==
        if base.Ok? then FromSaveRequest(syntax, edits, Some(base.value))
        else if base == Err(NoProfile) then FromSaveRequest(syntax, edits, None) else base
  {
    hide ResolveByName, ResolveDefault, FromSaveRequest;
  }
}
