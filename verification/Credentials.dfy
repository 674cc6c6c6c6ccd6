/**
 Where the Git secrets of a task come from (CredentialNames in pkg/gitprofile/scope.go): the references
 of a validated profile. With them every admitted permission state resolves.
 */
module Credentials {
  import opened Text
  import opened Grants
  import opened Policy
  import GitProfile

  const MaxEntries := 128

  /** What Profile.Validate asks of the entries as credentials; references follow the rule for secrets of a grant. */
  predicate ValidReferences(rules: NameRules, entries: seq<GitProfile.Entry>) {
    && 1 <= |entries| <= MaxEntries
    && forall i :: 0 <= i < |entries| && entries[i].secretRef != "" ==> rules.secret(entries[i].secretRef)
  }

  function References(entries: seq<GitProfile.Entry>): seq<string> {
    if entries == [] then []
    else
      var front, e := References(entries[..|entries| - 1]), entries[|entries| - 1];
      if e.secretRef != "" then front + [e.secretRef] else front
  }

  /** CredentialNames of the selected profile; without one there are no names. */
  method CredentialNames(profile: Option<seq<GitProfile.Entry>>) returns (names: seq<string>)
    ensures names == Selected(profile)
  {
    if profile.None? {
      return [];
    }
    var entries := profile.value;
    names := [];
    for i := 0 to |entries|
      invariant names == References(entries[..i])
    {
      assert entries[..i + 1][..i] == entries[..i];
      if entries[i].secretRef != "" {
        names := names + [entries[i].secretRef];
      }
    }
    assert entries[..|entries|] == entries;
    names := SortCompact(names);
  }

  function Selected(profile: Option<seq<GitProfile.Entry>>): seq<string> {
    if profile.Some? then SortCompact(References(profile.value)) else []
  }

  lemma {:induction false} ReferencesExact(entries: seq<GitProfile.Entry>)
    ensures |References(entries)| <= |entries|
    ensures forall n :: n in References(entries) <==> n != "" && exists i :: 0 <= i < |entries| && entries[i].secretRef == n
  {
    if entries != [] {
      var front := entries[..|entries| - 1];
      ReferencesExact(front);
      assert forall i :: 0 <= i < |front| ==> front[i] == entries[i];
      forall n | n in References(front)
        ensures n != "" && exists i :: 0 <= i < |entries| && entries[i].secretRef == n
      {
        var i :| 0 <= i < |front| && front[i].secretRef == n;
        assert entries[i].secretRef == n;
      }
    }
  }

  /** A validated profile names few enough secrets, each acceptable. */
  lemma ProfileNamesAcceptable(rules: NameRules, profile: Option<seq<GitProfile.Entry>>)
    requires profile.Some? ==> ValidReferences(rules, profile.value)
    ensures AcceptableGitSecrets(rules, Selected(profile))
  {
    if profile.Some? {
      var names := References(profile.value);
      ReferencesExact(profile.value);
      SortCompactExact(names);
      SortCompactLength(names);
      SortCompactLength(SortCompact(names));
    } else {
      assert SortCompact([]) == [];
    }
  }

  /**
   Admission implies resolution in every run of scopes and includes: the state it reaches resolves with
   the credential names of any validated profile, and its grant differs from the admitted one only in
   secrets, which are names of that profile.
   */
  lemma AdmittedAlwaysResolves(rules: NameRules, s: State, steps: seq<Step>, profile: Option<seq<GitProfile.Entry>>)
    requires Resolved(rules, s, []).Ok? && Run(rules, s, steps).Ok?
    requires profile.Some? ==> ValidReferences(rules, profile.value)
    ensures var last, names := Run(rules, s, steps).value, Selected(profile);
            && Resolved(rules, last, []).Ok? && Resolved(rules, last, names).Ok?
            && var before, after := Resolved(rules, last, []).value, Resolved(rules, last, names).value;
               && after == before.(secrets := after.secrets)
               && forall n :: n in after.secrets ==> n in before.secrets || n in names
  {
    hide Resolved, AcceptableGitSecrets, SortCompact;
    var last := Run(rules, s, steps).value;
    ProfileNamesAcceptable(rules, profile);
    RunResolves(rules, s, steps);
    AdmissionImpliesResolution(rules, last, Selected(profile));
  }

  /** Every state that a run from a resolving state reaches resolves without Git secrets. */
  lemma RunResolves(rules: NameRules, s: State, steps: seq<Step>)
    requires Resolved(rules, s, []).Ok? && Run(rules, s, steps).Ok?
    ensures Resolved(rules, Run(rules, s, steps).value, []).Ok?
  {
    hide Resolved, EnterScope, EnterInclude;
    if steps != [] {
      var before, step := Run(rules, s, steps[..|steps| - 1]).value, steps[|steps| - 1];
      EnteredResolves(rules, before, step.spec, true, false);
      if step.IncludeStep? {
        EnteredResolves(rules, before, step.spec, step.boundary, step.trusted);
      }
    }
  }
}
