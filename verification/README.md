# Execution demands, permissions and recipe passes: a verified model

A job runs a recipe in some environment. Extensions may ask for a stronger environment while it runs,
recipe scopes may narrow or edit what the job is permitted to do, hooks hand a part of their authority to
child jobs, and the recipe itself is compiled before it runs. This project models the logic that decides
those things and proves what callers rely on: that a negotiated demand never becomes weaker, that
permissions only shrink on the way down, that compiling a recipe does not change what it means, and that
the small concurrent protocols in between keep their promises under every interleaving.

`dafny verify dfyconfig.toml` checks the whole project.

## Files

| file | models |
|---|---|
| Text.dfy | the string operations used below |
| Base.dfy | base selectors and the greedy matcher |
| Quantity.dfy | bounded exact quantities and their canonical texts |
| Requirements.dfy | overlay, normal forms and comparison with an allocation |
| Negotiation.dfy | combining a running demand with an extension's request |
| Grants.dfy | grants as sets of capabilities: validity, intersection, inclusion |
| Policy.dfy | the permission state entered scope by scope, overrides, input secrets |
| Scopes.dfy | what entering a scope or an include means for grants and input secrets |
| Credentials.dfy | the Git secrets a profile names, and what resolves with them |
| HookPolicy.dfy | a hook's authority and the ceiling it puts on child jobs |
| Delegation.dfy | reissuing a delegated credential when the deadline moves |
| SwitchTable.dfy | compiling switch tables to guarded transitions, and taking them |
| ConditionText.dfy | what the texts of compiled conditions mean |
| SharedNodes.dfy | replacing references to shared nodes by their definitions |
| InputContract.dfy | applying input schemas with defaults |
| InputConformance.dfy | the declarative reading of an input schema |
| LeaseRegistry.dfy | leases, their shared state and the tasks that run under them |
| SecretScope.dfy | the generation fence of a Git execution scope |
| CallbackGate.dfy | counting callbacks of isolated scopes |
| GitProfile.dfy | choosing the credential entry for a destination |
| GitDestinations.dfy | where a credential may go, said of the parts of a URL |
| Inspection.dfy | paging with cursors and JSON Pointers |

Where the program updates variables in a loop or fields under a lock, the model has a method with a loop or
a class, proved against a specification function; the lemmas are about those functions. Where several
goroutines take part, each locked section is one step of a transition system, and the theorems quantify
over all sequences of steps.

## Properties that hold only in part

In each of these the code is modelled as it is, and the exact condition is proved.

- Selector refinement fails only for a base that is not reported: the lone `*` accepts it and no other
  selector does (`Base.MatchesTransitive`). Negotiation can therefore relax an enclosing selector to `*`
  for allocations that report no base, and only then (`Negotiation.NeverWeakens`).
- The inclusion test on grants is inclusion of what they allow, except that it also compares actions allowed
  for no cell at all, which validation refuses (`Grants.SubsetExact`).
- Resolving an admitted state with a list of Git secrets fails exactly when the state has no grant of its own
  and the list has an invalid name or more than 256 different ones (`Policy.AdmissionImpliesResolution`).
  The program only passes names of a profile of at most 128 entries, with which every admitted state
  resolves (`Credentials.AdmittedAlwaysResolves`); the limit matters to other callers only.
- Applying an input contract twice can fail: a nested default may inject a reserved key. It happens exactly
  when schema and data reach such a default (`InputContract.ApplyIdempotentExactly`).
- A block on a lease state is lifted by a handover that returns nil without suspending the execution, and by
  nothing else (`LeaseRegistry.BlockPersistsExactly`, `LeaseRegistry.NoNilHandoverNeverLifts`).
- Each guard of a state machine sees its own destination. A switch table that reads it can take nothing in
  spite of a default, or have two true guards (`SwitchTable.DestinationExample`); `SwitchTable.TakenExactly`
  says what is taken in general, and `SwitchTable.CompilationPreservesMeaning` holds for the other tables.
- The compiler puts `when` texts in parentheses without looking at them. A text that closes parentheses it
  does not open gets out of its case (`ConditionText.UnclosedWhenEscapes`); for closed texts the compiled
  text reads as what the table says (`ConditionText.TextsMeanConditions`).
- Joining conditions drops empty ones, which is sound exactly when there is none or another condition is
  true anyway (`SwitchTable.OrMeansExactly`); the compiler never produces one (`SwitchTable.ExpandPreserves`).
- Credential selection depends on the order of entries only when a profile holds a path of two slashes
  (`GitProfile.TiesNeedDoubleSlash`).
- Cursor paging enumerates a list exactly when no page but the last ends in an identifier that occurred
  before (`Inspection.PagingEnumeratesExactly`), and it ends at all exactly when no page begins where an
  earlier one began (`Inspection.PagingEndsExactly`).
- Normalising a byte quantity twice may change its text again, depending on the printer. For one that looks
  only at value and unit family the condition is `Quantity.NormalIdempotentExactly`; for the printer of
  largest units it fails exactly on IEC texts of at least 1024 bytes whose value is a multiple of a million
  and not of 1024, such as `976.5625Ki` (`Quantity.LargestUnitIdempotentExactly`).

## Model

| member | source | states |
|---|---|---|
| Base.MatchBase | pkg/execution/base.go:23-46 | the greedy loop accepts a name exactly when some assignment of texts to the stars spells it, or the selector is the lone `*` |
| Base.LeftmostSuffices | pkg/execution/base.go:37-43 | committing to the leftmost occurrence of a part never loses a match |
| Base.ExpandsIsAnchored | pkg/execution/base.go:30-45 | star assignments and the split into anchored parts accept the same names |
| Base.ExpandsTransitive | pkg/execution/base.go:23-46 | a filling of a filling is a filling: star patterns read as text compose |
| Base.MatchesTransitive | pkg/execution/base.go:23-46 | selector refinement is transitive; the exact exception is an unreported base under a selector other than the lone `*` |
| Base.UnreportedBaseBreaksRefinement | pkg/execution/base.go:24-29 | that exception occurs: `**` covers `*`, and `*` accepts no base, but `**` does not |
| Base.MatchesReflexive | pkg/execution/base.go:23-46 | every nonempty selector covers its own text |
| Quantity.NormalizeCPUKeepsValue | pkg/execution/quantity.go:17-28 | a CPU text is rewritten exactly when it parses; the result parses to the same number of millicores and is a fixed point |
| Quantity.NormalizeCPUCanonical | pkg/execution/quantity.go:17-28 | two accepted CPU texts get the same canonical text exactly when they denote the same number |
| Quantity.PrintKilobytesKeepsValue | pkg/execution/quantity.go:36-42 | the kilobyte text (three decimals, zeros and point trimmed) parses back to the same number of bytes |
| Quantity.NormalizeBytesKeepsValue | pkg/execution/quantity.go:30-42 | a byte text is rewritten exactly when it parses, to a text of the same value, whichever of the two printers is used |
| Quantity.NormalIdempotentExactly | pkg/execution/quantity.go:30-42 | for a printer that looks only at value and unit family, normalising is idempotent exactly when the text is printed with a unit, or printed in SI without one, or in SI as the kilobytes |
| Quantity.NormalIdempotentOnSI | pkg/execution/quantity.go:30-42 | so with such a printer every text with an SI unit is normalised once and for all |
| Quantity.NormalSettles | pkg/execution/quantity.go:30-42 | and any text is settled after a second pass |
| Quantity.PrintedIsCanonical | pkg/execution/quantity.go:35-41 | the printer that takes the largest power of 1000 or 1024 dividing the value, SI below one kibibyte, is such a printer |
| Quantity.LargestUnitIdempotentExactly | pkg/execution/quantity.go:30-42 | with it normalising is idempotent exactly on SI texts, values below 1024, multiples of 1024 and values that are no multiple of a million |
| Quantity.KibibytesExample | pkg/execution/quantity.go:30-42 | on `976.5625Ki` it is not: the first pass gives `1000k`, the second `1M` |
| Quantity.ParseExactly | pkg/execution/quantity.go:44-101 | a text is accepted exactly when the product of its decimal number and its unit is a positive whole number that fits 64 signed bits, and as that number |
| Quantity.LexExactly | pkg/execution/quantity.go:12-15 | a text is split exactly as digits, optionally a point and digits, and a suffix, put together give it back |
| Quantity.SIUnitsMean | pkg/execution/quantity.go:82-88 | k to E are worth 1000 to its sixth power |
| Quantity.IECUnitsMean | pkg/execution/quantity.go:82-88 | Ki to Ei are worth 1024 to its sixth power |
| Quantity.NoOtherUnits | pkg/execution/quantity.go:12-15 | cores come plain or in thousandths, and no other unit is accepted |
| Requirements.StandardSound | pkg/execution/requirements.go:100-116 | the package's own reading of quantities never changes a value, given a printer that is right about the texts it prints |
| Requirements.MergePackages | pkg/execution/packages.go:22-34 | the merge is the concatenation with every later repeat removed |
| Requirements.DistinctElements | pkg/execution/packages.go:22-34 | the merge loses no package, adds none and repeats none |
| Requirements.DistinctIsFirstOccurrences | pkg/execution/packages.go:22-34 | the merge holds exactly the packages of both lists, once each, in the order in which they first occur |
| Requirements.OverlayAssociative | pkg/execution/requirements.go:47-71 | layers of overrides may be grouped either way, package order included |
| Requirements.Normalize | pkg/execution/requirements.go:78-118 | the loop over the resource fields computes the specified normal form, with the first failing check as its error |
| Requirements.NormalizedKeeps | pkg/execution/requirements.go:78-118 | a normal form keeps base, capabilities, the packages up to repeats and the value of every quantity |
| Requirements.NormalizedResourcesKeepValues | pkg/execution/requirements.go:99-117 | resources normalise exactly when each given field is a quantity, and each keeps its value |
| Requirements.ValidExactly | pkg/execution/requirements.go:78-118 | a requirement normalises exactly when its base, names and quantities are each valid |
| Requirements.NormalizeRefused | pkg/execution/requirements.go:78-118 | a requirement is refused for its base, then a capability, then a package, then the first field that is no quantity |
| Requirements.NormalFormsCanonical | pkg/execution/requirements.go:99-138 | normal forms write every quantity in its canonical text, and an allocation otherwise stays as it is |
| Requirements.Compare | pkg/execution/compatibility.go:12-68 | the appended mismatches are those of the specification, in its order: missing capabilities ascending, base, then the three resources |
| Requirements.MissingCapabilities | pkg/execution/compatibility.go:22-30 | exactly the capabilities required and not supplied are reported, in ascending order |
| Requirements.SortedCapabilities | pkg/execution/capabilities.go:22-26 | the capabilities of a normal form are listed once each, in ascending order |
| Requirements.NoMismatchMeansSupplied | pkg/execution/compatibility.go:46-67 | no resource mismatch is reported exactly when each required quantity is supplied |
| Requirements.AcceptsExactly | pkg/execution/compatibility.go:12-68 | no mismatch at all exactly when both sides are valid, capabilities are included, the base is covered and each quantity, as written, is supplied |
| Requirements.AllocationNormalizesExactly | pkg/execution/requirements.go:120-138 | an allocation can be compared exactly when its version is known, a base is concrete and given in the current version only, and its names and quantities are valid |
| Requirements.ResourceReportExactly | pkg/execution/compatibility.go:46-66 | the reported resources are exactly those required and not supplied, each with its field name, both texts and the reason |
| Requirements.BaseReportExactly | pkg/execution/compatibility.go:31-43 | the base is reported exactly when it is required and not covered, with both texts and the reason |
| Negotiation.Negotiate | pkg/execution/negotiation.go:57-104 | the in-place rewriting computes the specified demand, with the first refusal as its error |
| Negotiation.RaiseResources | pkg/execution/negotiation.go:84-103 | the loop over field pointers keeps the larger of the prior and the next quantity per field |
| Negotiation.NegotiatedShape | pkg/execution/negotiation.go:57-104 | each negotiated field asks for the largest of prior, request and override; capabilities are their union; the base is the finer selector; nothing else of the demand changes |
| Negotiation.NegotiatedPackages | pkg/execution/negotiation.go:58-58 | the packages of the demand, the request and the overrides are all kept, once each, in the order of first occurrence in that sequence |
| Negotiation.NegotiatesExactly | pkg/execution/negotiation.go:57-83 | negotiation succeeds exactly when what is in force is valid, the override fits the requested base and undercuts no requested quantity, and the bases can be combined; otherwise it gives exactly the refusal for the first that fails |
| Negotiation.UndercutExactly | pkg/execution/negotiation.go:68-74 | the comparison of the request reports a field exactly when an override asks for less of it |
| Negotiation.NegotiatedBase | pkg/execution/negotiation.go:63-83 | the chosen selector covers a reported name exactly when the demand, the request and the overrides all cover it |
| Negotiation.NegotiatedValid | pkg/execution/negotiation.go:57-104 | negotiating from a valid demand gives a valid demand |
| Negotiation.NeverWeakens | pkg/execution/negotiation.go:57-104 | whatever meets the result meets the request and the overrides, and the prior demand too unless no base is reported and a lone `*` relaxed it; the exception is exact |
| Negotiation.NegotiationIsMeet | pkg/execution/negotiation.go:57-104 | on allocations that report a base, the result accepts exactly what demand, request and overrides all accept |
| Negotiation.LoneStarExample | pkg/execution/negotiation.go:75-83 | the exception occurs: after `**` is asked for `*`, an allocation without a base is accepted |
| Negotiation.RunIsMeet | pkg/execution/negotiation.go:57-104 | after any run of negotiations the demand accepts exactly what the first demand, every request and the overrides accept |
| Negotiation.RunKeepsPackages | pkg/execution/negotiation.go:57-104 | after any run with a request all packages of the demand, the requests and the overrides are kept, once each, in the order of first occurrence |
| Grants.Validate | pkg/permissions/policy.go:56-92 | the checking loops accept exactly the grants whose names are valid and distinct, within the limits, and with cell names only on allowed actions |
| Grants.CollectCommon | pkg/permissions/policy.go:322-365 | the append loops collect the common names in the order of the first list |
| Grants.CommonExact | pkg/permissions/policy.go:322-365 | the collected names are exactly those in both lists, without repeats if the first has none |
| Grants.IntersectExact | pkg/permissions/policy.go:322-365 | the intersection allows exactly the capabilities both grants allow, validity not needed |
| Grants.IntersectValid | pkg/permissions/policy.go:322-365 | the intersection of valid grants is valid, an empty list of common cells included |
| Grants.SubsetExact | pkg/permissions/policy.go:366-398 | for all grants the inclusion test holds exactly when every capability of the first is one of the second, and the second allows each action the first allows for no cell at all |
| Grants.SubsetExactWhenValid | pkg/permissions/policy.go:366-398 | against a valid first grant it is inclusion of capabilities |
| Grants.IdleActionExample | pkg/permissions/policy.go:366-398 | the extra condition is needed: an action allowed for no cell permits nothing and still fails the test |
| Grants.IntersectIsMeet | pkg/permissions/policy.go:322-398 | the intersection lies below both grants, whatever they are, and above every grant below both that allows no action for no cell at all |
| Grants.UnlistedName | pkg/permissions/access.go:119-121 | no finite list names every cell, so a listed grant is strictly below one for any cell |
| Grants.SortCompactExact | pkg/permissions/policy.go:271-291 | sorting and compacting lists the same names once each, ascending |
| Text.BeforeExactly | pkg/permissions/policy.go:266-267 | ascending means: at the first difference the smaller character, and a beginning before what it begins |
| Grants.SortedSecrets | pkg/permissions/policy.go:271-291 | sorting the secrets of a grant changes neither its validity nor what it allows |
| Policy.Resolve | pkg/permissions/policy.go:258-298 | the rebinding of the grant computes the specified resolution: start, limit, overrides, validity, limit again |
| Policy.CheckInput | pkg/permissions/inputs.go:22-45 | an input secret is accepted exactly when its name passes every policy in force |
| Policy.CheckInputs | pkg/permissions/inputs.go:22-45 | a list of input secrets is accepted exactly when each one is |
| Policy.Include | pkg/permissions/inputs.go:49-102 | the statements of the include step, in their order, compute the specified state |
| Policy.ApplyAllFields | pkg/permissions/inheritance.go:42-75 | after a chain of overrides the secrets and both flags hold their last explicit value, and the cells of an action the last list since its last denial, or any cell after a denial, or the starting cells |
| Policy.ValidOverridesExactly | pkg/permissions/inheritance.go:31-40 | an override is valid exactly when its lists are lists of valid names and no denied action has cells; then it applies to every grant |
| Policy.AppliesExactly | pkg/permissions/inheritance.go:42-75 | a chain applies exactly when each override is valid |
| Policy.ApplyAllIgnoresSecrets | pkg/permissions/inheritance.go:42-75 | whether overrides apply, and what actions they set, does not depend on the starting secrets |
| Policy.AdmissionImpliesResolution | pkg/permissions/policy.go:254-297 | an admitted state resolves for a list of Git secrets exactly when it has a grant or the list is acceptable; the results differ only in secrets, and only where neither grant nor override lists any |
| Policy.TooManyGitSecrets | pkg/permissions/policy.go:258-270 | more than 256 different names are refused although the state resolves without them |
| Policy.GitSecretsExample | pkg/permissions/policy.go:258-270 | the function refuses a list of 257 names that the rules accept; no profile gives so many |
| Credentials.CredentialNames | pkg/gitprofile/scope.go:430-447 | the loop collects the references of the profile, sorted and once each |
| Credentials.ProfileNamesAcceptable | pkg/gitprofile/profile.go:87-109 | the references of a validated profile are acceptable Git secrets |
| Credentials.AdmittedAlwaysResolves | pkg/executionruntime/git_profile.go:94-107 | after any run of scopes and includes the state resolves with the names of any validated profile, and its grant gains nothing but such names |
| Policy.InheritedDenials | pkg/permissions/inheritance.go:159-182 | the backward search reports a field exactly when its last explicit override denies it |
| Policy.DenialsAreInForce | pkg/permissions/inheritance.go:159-182 | for every reported field the resolved grant allows nothing of that kind |
| Policy.DenialsExactly | pkg/permissions/inheritance.go:159-182 | a field is reported exactly when its last explicit override denies it, an empty list of secrets included, in a fixed order |
| Policy.StepNarrows | pkg/permissions/policy.go:229-256 | one step cuts the limit by exactly the ceiling it enters; it leaves child grant, child policy and root repository alone, and a scope also the input policy |
| Policy.RunNarrows | pkg/permissions/policy.go:229-256 | after any run the limit is exactly the first limit cut by every ceiling entered |
| Policy.ResolvedWithinLimit | pkg/permissions/policy.go:258-298 | a resolved grant allows only what the limit allows, overrides included |
| Policy.RunNeverEscapes | pkg/permissions/inputs.go:22-102 | whatever is resolved, and every input secret accepted, at the end of a run lies in every limit passed through and every ceiling entered, include callsites too |
| Scopes.ExplicitGrantResolves | pkg/permissions/policy.go:229-256 | inside a scope with an explicit grant exactly that grant is resolved, whatever was granted or overridden outside |
| Scopes.InheritEdits | pkg/permissions/policy.go:246-256 | inside an inheriting scope the grant resolved outside is edited by exactly the scope's overrides |
| Scopes.IncludeStartsAfresh | pkg/permissions/inputs.go:76-101 | inside an include across repositories, or one with a callsite grant, exactly the defaults within the ceilings are in force |
| Scopes.ResolvesExactly | pkg/permissions/policy.go:258-298 | a state resolves exactly when version, start, limit and overrides are valid and what the overrides leave is valid and within the limit; and to that |
| Scopes.ResolveRefused | pkg/permissions/policy.go:258-298 | a state is refused for the first that fails: version, starting grant, limit, override, what they leave, limit again |
| Scopes.IncludeRefused | pkg/permissions/inputs.go:49-75 | an include is refused for its callsite, then for want of a ceiling, then for an input secret the caller does not accept |
| Scopes.ResolvedAllowsExactly | pkg/permissions/policy.go:258-298 | for each cell and each secret what a resolved grant allows, by its last flag and its last list |
| Scopes.StartAllows | pkg/permissions/policy.go:262-280 | overrides start from the explicit grant, or from the defaults as far as the limit allows |
| Scopes.GrantEntersExactly | pkg/permissions/policy.go:229-256 | a scope with its own grant can be entered exactly when the grant lies within the limits inside and outside |
| Scopes.IncludeEntersExactly | pkg/permissions/inputs.go:49-112 | an include that starts afresh can be entered exactly when the callsite is valid, has a ceiling across repositories, and names only input secrets the caller accepts |
| Scopes.InputsExactly | pkg/permissions/inputs.go:22-45 | a state that resolves accepts exactly the input secrets it resolves itself and, within its limit, those an include entrusted |
| Scopes.UntrustedIncludeInputs | pkg/permissions/inputs.go:49-102 | an untrusted include accepts exactly, within its ceilings, what was entrusted before, what its callsite names and what stays explicit |
| Scopes.TrustedIncludeInputs | pkg/permissions/inputs.go:49-102 | a trusted include accepts exactly the input secrets within its ceilings |
| Scopes.BoundaryDelegatesOnlyNamed | pkg/permissions/inputs.go:49-102 | an untrusted include across repositories accepts exactly the input secrets its callsite names within the ceilings |
| Scopes.UntrustedIncludeNeverWidensInputs | pkg/permissions/inputs.go:49-102 | an untrusted include accepts no input secret its caller would refuse |
| Scopes.UntrustedRunNeverWidensInputs | pkg/permissions/inputs.go:22-102 | the same for any nesting of untrusted includes |
| HookPolicy.CutLoop | pkg/hookpolicy/policy.go:271-276 | the fold over the ceilings skips absent ones and intersects with the others |
| HookPolicy.CutExact | pkg/hookpolicy/policy.go:271-276 | the cut grant allows exactly what the hook's grant and every present ceiling allow |
| HookPolicy.AuthorityLimit | pkg/hookpolicy/policy.go:255-303 | inherit overrides never change the limit, the grant or the child grant of a hook state |
| HookPolicy.AuthorityBounded | pkg/hookpolicy/policy.go:236-303 | what a hook resolves, inherit overrides included, lies in its grant and trust, its limit, the parent limit and both callsite ceilings |
| HookPolicy.AuthorityExactly | pkg/hookpolicy/policy.go:236-303 | a hook gets authority exactly when entry and callsite are valid, everything granted is trusted for the candidate, and inherit overrides ask for nothing beyond the cut grant |
| HookPolicy.AuthorityRefused | pkg/hookpolicy/policy.go:236-268 | a hook is refused for its entry, then for a secret, submission or creation not trusted for the candidate, then for its callsite |
| HookPolicy.AuthorityNamesCandidate | pkg/hookpolicy/policy.go:118-129 | a hook with authority records for each capability it grants a trust for any candidate, or one with the full hash of this very candidate |
| HookPolicy.EntryValidExactly | pkg/hookpolicy/policy.go:132-176 | an entry is valid exactly when it is a complete grant within its own limit with a valid trust for exactly what it grants |
| HookPolicy.AuthorityAllowsExactly | pkg/hookpolicy/policy.go:236-303 | without inherit overrides a hook resolves exactly what its grant and every ceiling allow |
| HookPolicy.InheritFitsExactly | pkg/hookpolicy/policy.go:297-301 | inherit overrides can be entered exactly when the cut grant is valid and they fit it field by field |
| HookPolicy.HookInputsExact | pkg/hookpolicy/policy.go:255-279 | inside a hook exactly the input secrets are accepted that its grant and every ceiling allow |
| HookPolicy.AuthorityResolves | pkg/hookpolicy/policy.go:236-303 | a hook that is given authority can always resolve it, whatever Git secrets there are |
| HookPolicy.SelfLimitedResolves | pkg/permissions/policy.go:258-298 | a state whose grant is its own limit resolves to that grant, secrets sorted |
| HookPolicy.ChildGrantExact | pkg/hookpolicy/policy.go:280-296 | the child grant is exactly the part of the hook's grant trusted for any candidate |
| HookPolicy.ChildWithinParent | pkg/executionruntime/permissions.go:44-61 | a submitted child starts within the resolved grant, the child grant and the limit of its parent |
| HookPolicy.SubmitsExactly | pkg/executionruntime/permissions.go:44-61 | a child is submitted exactly when the resolved grant allows its cell and the job is a recipe that can carry the ceiling |
| HookPolicy.ChildStartsExactly | pkg/executionruntime/permissions.go:156-179 | a submitted child resolves, and accepts as input secrets, exactly what its parent resolved and may entrust to children |
| HookPolicy.ChildGrantValid | pkg/hookpolicy/policy.go:280-296 | what a hook may entrust to children is valid |
| HookPolicy.FollowStaysWithin | pkg/executionruntime/permissions.go:156-179 | along any chain of scopes, submitted children and called hooks the limit stays within the first, and after a submission within the first child grant |
| HookPolicy.CalledWithinCaller | pkg/hookpolicy/policy.go:256-278 | a hook called by a job stays within the limit of the calling scope |
| HookPolicy.JobTreeBounded | pkg/hookpolicy/policy.go:236-303 | anything resolved and any input secret accepted anywhere below a hook lies in its grant, trust and every ceiling; after a submission, from however deep inside the hook, it is also trusted for any candidate |
| HookPolicy.TokenBounded | pkg/executionruntime/permissions.go:79-86 | the raw token of any task below a hook submits no job and allows nothing beyond the hook's grant |
| HookPolicy.ChildResolves | pkg/executionruntime/permissions.go:156-179 | a child whose ceiling is valid can always resolve the whole of it |
| Delegation.RestrictedAccess.LimitDeadline | pkg/permissions/access.go:59-65 | the scope deadline becomes the earlier of the two and touches no credential |
| Delegation.RestrictedAccess.Get | pkg/executionruntime/permissions.go:65-96 | a credential never outlives the scope and is issued anew exactly when none fits; that is kept exactly when a failing issuer leaves no lease behind, or one with the recorded deadline |
| SwitchTable.ExpandSwitch | pkg/recipe/state.go:216-289 | the loop with its `seen` map and its list of full matches computes the specified expansion, with the first error |
| SwitchTable.TakenExactly | pkg/worker/compiler/statemachine_compiler.go:293-317 | every guard is evaluated for its own destination: the target taken is what the table chooses as seen from that target, and none is taken exactly when no destination is chosen as seen from itself |
| SwitchTable.CompilationPreservesMeaning | pkg/recipe/state.go:216-289 | when no text of the table reads the destination, the transition taken is the one the table chooses |
| SwitchTable.CompiledChoosesAlike | pkg/recipe/state.go:216-289 | as seen from any one destination, the first true guard leads where reading the table leads |
| SwitchTable.ExpandSeenAlike | pkg/recipe/state.go:216-289 | compiled guards depend on the environment only through the texts of the table, and lead only to its destinations |
| SwitchTable.DestinationExample | pkg/worker/compiler/statemachine_compiler.go:336-347 | tables that read the destination: one with a default that takes nothing, one with two true guards |
| SwitchTable.ExpandPreserves | pkg/recipe/state.go:216-289 | the same as seen from one destination under a parent condition; and no compiled condition is the empty one |
| SwitchTable.GuardsExcludeEachOther | pkg/recipe/state.go:216-273 | if literals denote different values and no text reads the destination, at most one guard is true, with an outer default exactly one |
| SwitchTable.CompilesExactly | pkg/recipe/state.go:216-304 | a table compiles exactly when it is well formed: nesting, literals, repeats, targets |
| SwitchTable.CaseRefused | pkg/recipe/state.go:216-304 | a case is refused for the first rule it breaks: value, repeat, `when`, two targets, no target, and last its own table |
| SwitchTable.TableRefused | pkg/recipe/state.go:216-273 | a table is refused itself, by its first bad case, or by its default |
| SwitchTable.OrMeans | pkg/recipe/state.go:337-349 | dropping conditions is sound when none of them is empty |
| SwitchTable.OrMeansExactly | pkg/recipe/state.go:337-349 | it is sound exactly when none is empty or one that is kept is true |
| SwitchTable.EmptyConditionBreaksOr | pkg/recipe/state.go:337-349 | with an empty condition it is not sound |
| SwitchTable.AndMeans | pkg/recipe/state.go:318-335 | the conjunction with its special texts is true exactly when both conditions are |
| SwitchTable.RenderSpecial | pkg/recipe/state.go:318-353 | a special text is the rendering of its own condition only |
| SwitchTable.AndRenders | pkg/recipe/state.go:318-335 | combining two texts is rendering the combined condition; what the text then means is stated in ConditionText |
| SwitchTable.OrRenders | pkg/recipe/state.go:337-349 | joining texts is rendering the joined condition |
| ConditionText.AndTextReads | pkg/recipe/state.go:318-335 | read as a text, the combination of two texts is their conjunction, special texts included |
| ConditionText.OrTextReads | pkg/recipe/state.go:337-349 | read as a text, the joined texts are their disjunction |
| ConditionText.NotAnyTextReads | pkg/recipe/state.go:351-353 | read as a text, the negation holds exactly when none of the texts does |
| ConditionText.CaseRenders | pkg/recipe/state.go:291-304 | the text of a case is the rendering of its condition |
| ConditionText.CaseTextReads | pkg/recipe/state.go:291-304 | read as a text, a case says that the expression equals the literal and its `when` holds |
| ConditionText.ReadsAsMeans | pkg/recipe/state.go:291-353 | the text of every condition made of closed texts reads as what the condition means |
| ConditionText.ExpandFits | pkg/recipe/state.go:216-289 | the compiler makes only such conditions of a table of closed texts |
| ConditionText.TextsMeanConditions | pkg/recipe/state.go:216-289 | the first compiled text that reads as true, each for its own destination, is that of the first condition that is true |
| ConditionText.TextsPreserveMeaning | pkg/recipe/state.go:216-289 | when no text reads the destination, the compiled texts take the transition the table chooses |
| ConditionText.LiteralsFit | pkg/recipe/state.go:355-380 | numbers, booleans and quoted strings are literals that no operator or parenthesis gets out of |
| ConditionText.UnclosedWhenEscapes | pkg/recipe/state.go:291-304 | a `when` text that is not closed gets out of its parentheses: with `x)) || ((y` the case holds wherever y does |
| SharedNodes.SharedNodeResolver.VisitNodeShared | pkg/recipe/visitor.go:295-333 | terminates, leaves the stack as it found it, returns the specified tree; an error means there is none, and names a reachable reference that really is undefined or on a cycle |
| SharedNodes.SharedNodeResolver.WalkAndResolveNode | pkg/recipe/visitor.go:336-400 | the same for every node, whatever the order in which the states are visited |
| SharedNodes.StartContinues | pkg/recipe/visitor.go:286-292 | with the empty stack every node meets what the resolver needs of its stack |
| SharedNodes.DefinitionContinues | pkg/recipe/visitor.go:303-319 | pushing a name keeps the stack a chain of references |
| SharedNodes.ResultHoldsNoReference | pkg/recipe/visitor.go:278-400 | a resolved tree holds no shared reference |
| SharedNodes.ResolutionIdempotent | pkg/recipe/visitor.go:278-400 | resolving a resolved tree, under any definitions, changes nothing |
| SharedNodes.ResolutionIsFullUnfolding | pkg/recipe/visitor.go:278-400 | the result is the full unfolding of the definitions, and exists exactly when some finite unfolding does |
| SharedNodes.ResolvesExactly | pkg/recipe/visitor.go:295-333 | resolution succeeds exactly when every reachable name is defined and on no cycle |
| SharedNodes.ResolvedIsUnfolded | pkg/recipe/visitor.go:278-400 | unfolding to a depth of the number of definitions off the stack is enough |
| InputContract.ApplyInputFields | pkg/recipe/input_contract.go:50-95 | fills the result map as specified, declared fields and extra ones; terminates although defaults are not part of the data |
| InputContract.ApplyInputField | pkg/recipe/input_contract.go:55-74 | one declared field: given, defaulted, missing or left out |
| InputContract.ApplyInputExtra | pkg/recipe/input_contract.go:76-94 | one undeclared field: rejected, checked by a schema or copied as plain data |
| InputContract.ApplyInputValue | pkg/recipe/input_contract.go:97-176 | applies a schema to a value as specified; terminates on schema size, then value size |
| InputContract.ApplyInputItem | pkg/recipe/input_contract.go:162-175 | one array item, against the item schema or as plain data |
| InputContract.CopyInputJSON | pkg/recipe/input_contract.go:193-217 | copies a value as specified where no schema constrains it |
| InputContract.CopiesExactlyPlainData | pkg/recipe/input_contract.go:193-217 | exactly plain data may stand where no schema constrains it, and it is copied unchanged |
| InputContract.ResultSettles | pkg/recipe/input_contract.go:97-176 | a schema leaves its own result alone exactly when no object in it carries a reserved key |
| InputContract.SettledExactly | pkg/recipe/input_contract.go:97-176 | a result carries no reserved key exactly when no default reached by schema and data puts one into an object |
| InputContract.ApplyIdempotentExactly | pkg/recipe/input_contract.go:30-95 | a contract keeps its own result exactly when no default, of a given object or inside another default, puts a reserved key into an object of an input |
| InputContract.ApplyIdempotent | pkg/recipe/input_contract.go:30-95 | a contract without defaults under reserved names is idempotent on all data it accepts |
| InputContract.ReservedDefaultExample | pkg/recipe/input_contract.go:50-95 | a contract that compiles, with a nested default under a reserved name, rejects its own result |
| InputContract.FieldsExactly | pkg/recipe/input_contract.go:50-95 | under validated properties an absent field fails only when it is required and has no default: an injected default never fails |
| InputContract.CurrentContractExactly | pkg/recipe/schema_version.go:14-28 | a compiled current contract accepts exactly data of declared fields, each accepted, with every required field given or defaulted |
| InputContract.LegacyUnsupportedType | pkg/recipe/input_schema_v1.go:8-29 | in a legacy contract every type it does not support, array and checkpoint included, rejects every value and does no harm while the input is absent, optional and without default |
| InputContract.AdaptLegacyInputSchema | pkg/recipe/input_schema_v1.go:8-29 | the rewriting loop adapts every declaration and notes whether there is none |
| InputContract.UndeclaredInputsExactly | pkg/recipe/input_contract.go:36-41 | an include may pass undeclared inputs exactly to a legacy contract that declares none |
| InputConformance.ResultConforms | pkg/recipe/input_contract.go:97-176 | whatever applying a schema returns conforms to the declarative reading of the schema, injected defaults included |
| InputConformance.FixedExactly | pkg/recipe/input_contract.go:97-176 | a schema leaves a value as it is exactly when the value conforms and carries no reserved key or checkpoint where an object stands |
| InputConformance.ReferenceSurvives | pkg/recipe/input_contract.go:113-132 | a reference is accepted exactly for a simple type it does not contradict; name and default survive and it is told the type |
| InputConformance.PlainValueKept | pkg/recipe/input_schema.go:30-95 | a value that is no reference is kept by a simple type exactly when it is of that type |
| InputConformance.LegacySupportedType | pkg/recipe/input_schema_v1.go:17-24 | in a legacy contract simple and artifact types mean what they mean now, and an object is a checkpoint |
| InputConformance.ContractResultConforms | pkg/recipe/input_contract.go:30-95 | a contract returns only declared inputs, each conforming, and leaves out only what is optional, without default and not given |
| InputConformance.ContractCompilesExactly | pkg/recipe/schema_version.go:14-28 | legacy contracts always compile, current ones exactly when every declaration follows the rules, and no other version |
| InputConformance.DeclaredExactly | pkg/recipe/input_contract.go:219-265 | a declaration is valid exactly when its type is known, structure stands where its type allows it, nesting stays within 64 levels, and defaults are accepted |
| LeaseRegistry.Runtime.Accept | pkg/executionruntime/runtime.go:98-111 | a new lease gets a fresh state and becomes the current wrapper of its job |
| LeaseRegistry.Runtime.WrapRenewed | pkg/executionruntime/runtime.go:147-154 | the renewed wrapper takes over the same state |
| LeaseRegistry.Runtime.Forget | pkg/executionruntime/runtime.go:169-175 | only an entry of the same state is removed |
| LeaseRegistry.Runtime.Stage | pkg/executionruntime/runtime.go:55-62 | the demand goes to the state of the current wrapper, or nowhere |
| LeaseRegistry.Runtime.BlockExecution | pkg/executionruntime/runtime.go:308-313 | the state, and so every wrapper of it, stores the error as it comes, nil included |
| LeaseRegistry.StepKeepsInvariant | pkg/executionruntime/runtime.go:55-313 | every atomic step keeps the table and every running task valid |
| LeaseRegistry.ReachableStates | pkg/executionruntime/runtime.go:232-304 | in every reachable state a worker runs only with no demand read or a compatible one, and no missing demand is ever published |
| LeaseRegistry.DecidesExactly | pkg/executionruntime/runtime.go:249-260 | a task that read its lease works exactly when no demand was staged or the allocation meets it, yields exactly when the two compare and it does not, and ends otherwise |
| LeaseRegistry.AsksExactly | pkg/executionruntime/runtime.go:260-283 | a worker that asks for another environment leads to staging exactly the negotiated demand, exactly when the request is valid and not met, a demand was read and negotiation succeeds |
| LeaseRegistry.ReachesWorker | pkg/executionruntime/runtime.go:232-260 | a waiting task reaches the worker exactly when its lease is held and not blocked and the staged demand, if any, is met |
| LeaseRegistry.AskedIsHandedOver | pkg/executionruntime/runtime.go:282-304 | the negotiated demand is staged for the lease and is the one handed over |
| LeaseRegistry.HandsOverExactly | pkg/executionruntime/runtime.go:286-313 | a yielding task has something to hand over exactly when the payload decodes and holds the demand or can be made to; a suspended handover ends it, and any other outcome is stored as the block |
| LeaseRegistry.CurrentExactly | pkg/executionruntime/runtime.go:98-175 | the current wrapper of a job is the latest accepted or renewed one, until that very state is forgotten |
| LeaseRegistry.OnlyStagingChangesDemand | pkg/executionruntime/runtime.go:55-62 | only staging through the current wrapper of its job changes the demand of a state |
| LeaseRegistry.RenewalsKeepStates | pkg/executionruntime/runtime.go:147-154 | demands and blocks survive any number of renewals |
| LeaseRegistry.ForgetSparesOthers | pkg/executionruntime/runtime.go:169-175 | a stale wrapper never removes an entry with another state |
| LeaseRegistry.BlockPersistsExactly | pkg/executionruntime/runtime.go:286-313 | a block persists through a run exactly when no task stores the nil error of a handover in that state |
| LeaseRegistry.NoNilHandoverNeverLifts | pkg/executionruntime/runtime.go:299-303 | only a handover that returns nil without suspension can lift a block |
| LeaseRegistry.NilHandoverExample | pkg/executionruntime/runtime.go:299-313 | it does: after a refused handover, another that returns nil lets a later run through |
| LeaseRegistry.BlockedStopsWork | pkg/executionruntime/runtime.go:232-248 | while a block is not so lifted no later run under that state invokes the worker |
| LeaseRegistry.RunGrows | pkg/executionruntime/runtime.go:102-124 | states are never lost, never change job and never lose a staged demand |
| LeaseRegistry.PublishedWasStaged | pkg/executionruntime/runtime.go:179-203 | whatever a task hands over along a run had been staged in its state, overrides aside, also where the payload supplies it |
| LeaseRegistry.NegotiatedDemandMovesOn | pkg/executionruntime/runtime.go:268-283 | a demand negotiated because this executor did not do is one it cannot meet, so no task that reads it here reaches the worker |
| SecretScope.Scope.SetActive | pkg/gitprofile/scope.go:144-160 | a failed file replacement changes nothing; otherwise the scope is set and the generation moves on |
| SecretScope.Scope.Switch | pkg/gitprofile/scope.go:264-281 | activation needs the scope's own profile name; the outcome is recorded only on success |
| SecretScope.Scope.AllowSecrets | pkg/gitprofile/scope.go:202-211 | names are only ever added |
| SecretScope.Scope.Close | pkg/gitprofile/scope.go:161-176 | cancels first, then deactivates under the lock |
| SecretScope.SwitchesExactly | pkg/gitprofile/scope.go:144-160 | a switch takes effect exactly when the scope is open, the file is replaced and an activation names the scope's own profile; then it moves the generation on |
| SecretScope.ClosedStaysInactive | pkg/gitprofile/scope.go:161-176 | once closed a scope is never active again |
| SecretScope.StepKeepsInvariant | pkg/gitprofile/scope.go:234-335 | every step keeps what each request in flight knows about the scope true for its generation |
| SecretScope.ReleaseIsAuthorised | pkg/gitprofile/scope.go:328-334 | a released secret is authorised by the scope as it is at that moment |
| SecretScope.EveryReleaseIsAuthorised | pkg/gitprofile/scope.go:234-335 | the same for each release along every interleaving of requests, switches, additions and closing |
| SecretScope.ReleasedMayBeHad | pkg/gitprofile/scope.go:302-309 | each name released is one the active profile refers to or, for a request for that secret, one that was allowed |
| SecretScope.AnsweredExactly | pkg/gitprofile/scope.go:234-335 | whatever else happens in between, a request gets its secret exactly when it was authorised when it read the scope, the secret was found, and the scope was neither cancelled nor switched since |
| SecretScope.NothingAfterClose | pkg/gitprofile/scope.go:161-176 | once closing has cancelled the scope nothing is released |
| SecretScope.FenceIsNeeded | pkg/gitprofile/scope.go:328-334 | a request read before a clear would be answered after it but for the generation check |
| CallbackGate.Gate.constructor | pkg/recipetest/execution_scope.go:61-64 | a new gate is the step of a callback opening a nested scope |
| CallbackGate.Gate.Root | pkg/recipetest/execution_scope.go:81-96 | the gate of the whole run is the start of the system |
| CallbackGate.Gate.Begin | pkg/recipetest/execution_scope.go:65-73 | admission is the step of the system, and succeeds exactly when the callback runs after it |
| CallbackGate.Gate.Finish | pkg/recipetest/execution_scope.go:44-50 | the deferred count down is the step of the system and never goes below zero |
| CallbackGate.Gate.Close | pkg/recipetest/execution_scope.go:74-79 | closing is the step of the system and never counts below zero |
| CallbackGate.OtherGatesUntouched | pkg/recipetest/execution_scope.go:55-79 | a step leaves all other gates as they are |
| CallbackGate.StepKeepsInvariant | pkg/recipetest/execution_scope.go:30-115 | every step keeps the count equal to the open gates plus the running callbacks |
| CallbackGate.RunningExactly | pkg/recipetest/execution_scope.go:30-79 | a callback runs from its admission by an open gate until it finishes, and a gate is open from its scope's start until its close |
| CallbackGate.CountIsSafe | pkg/recipetest/execution_scope.go:30-79 | the count never becomes negative and a drained group is never counted up again |
| CallbackGate.QuietForever | pkg/recipetest/execution_scope.go:81-115 | once nothing is open and nothing runs no callback ever starts, nested scopes included |
| CallbackGate.WaitIsFinal | pkg/recipetest/execution_scope.go:81-115 | along every run, after waiting has returned no callback runs and none ever starts |
| GitProfile.Match | pkg/gitprofile/profile.go:137-167 | the loop keeps the first of the answering entries with the longest written path, and returns it only if the user name fits |
| GitProfile.SelectedIsLongest | pkg/gitprofile/profile.go:137-167 | an entry is selected exactly when one answers, and it has the longest written path of those |
| GitProfile.OrderIndependentExactly | pkg/gitprofile/profile.go:137-167 | the selection does not depend on the order of entries exactly when the longest answering entries are not tied |
| GitProfile.ValidPathShape | pkg/gitprofile/profile.go:87-135 | a path that validation accepts is empty, one or two slashes, or a trimmed scope between at most one slash on each side |
| GitProfile.WrittenLengthsFollowScopes | pkg/gitprofile/profile.go:82-135 | comparing untrimmed lengths orders answering scopes as comparing scopes does, the path of two slashes aside |
| GitProfile.TiesNeedDoubleSlash | pkg/gitprofile/profile.go:87-167 | in a valid profile two entries tie exactly when one path is two slashes and the other a one-character scope, with none longer |
| GitProfile.LongestScopeWins | pkg/gitprofile/profile.go:87-167 | in a valid profile without a path of two slashes the one entry with the longest scope by segments is selected in any order |
| GitProfile.MatchedExactly | pkg/gitprofile/profile.go:137-167 | in such a profile an entry is returned exactly when the path is clean, its scope is the longest that covers the request, and it holds a secret for the user |
| GitDestinations.MatchedPlaceExactly | pkg/gitprofile/profile.go:72-86 | said of the parts of the URLs: the entry returned is the one with the same scheme, host but for case, and effective port, whose path segments are the most that begin those of a clean request, and it holds a secret for the user |
| GitDestinations.MatchedLeads | pkg/gitprofile/profile.go:137-167 | in any valid profile a returned entry has the scheme, host and port of the target, and its segments begin the target path |
| GitDestinations.AuthorityExactly | pkg/gitprofile/profile.go:72-81 | two URLs have the same authority exactly when their hosts agree but for case and their ports agree, 80 and 443 being the defaults |
| GitDestinations.CoversExactly | pkg/gitprofile/profile.go:82-86 | a scope covers a request exactly when its segments are the first segments of the request |
| GitDestinations.ValidPathExactly | pkg/gitprofile/profile.go:67-69 | a profile path is accepted exactly when it is empty or proper segments behind a slash, with at most one slash more |
| GitDestinations.ValidRequestPathExactly | pkg/gitprofile/profile.go:147-152 | a request path is looked up exactly when it is proper segments with at most one slash at the end |
| GitProfile.DoubleSlashExample | pkg/gitprofile/profile.go:87-167 | in a valid profile with a path of two slashes the order of entries decides which credential is returned |
| Inspection.PageOf | pkg/jobinspect/service.go:426-462 | the search for the cursor and the window computes the specified page or error |
| Inspection.CursorRefusedExactly | pkg/jobinspect/service.go:429-449 | a cursor is refused exactly when it is of another request, or its last identifier is gone |
| Inspection.PagingEnumeratesExactly | pkg/jobinspect/service.go:426-462 | following cursors ends with the list itself exactly when the last identifier of each page but the last has not occurred before |
| Inspection.DistinctIdsEnumerated | pkg/jobinspect/service.go:426-462 | distinct identifiers come once each and in order, within one page more than there are identifiers |
| Inspection.PagingEndsExactly | pkg/jobinspect/service.go:426-462 | following cursors reaches a last page exactly when no page begins where an earlier one began, and then within one page more than there are positions |
| Inspection.RepeatedIdLoops | pkg/jobinspect/service.go:426-462 | an example that never ends: a list of three with one identifier a page |
| Inspection.RepeatedIdSeenAgain | pkg/jobinspect/service.go:426-462 | an example that ends and shows an identifier too often: a list of four with three a page |
| Inspection.CheckToken | pkg/jobinspect/service.go:518-525 | the escape scan accepts exactly the tokens in which 0 or 1 follows every tilde |
| Inspection.ArrayIndex | pkg/jobinspect/service.go:537-544 | an index is accepted exactly in its canonical decimal form and in range |
| Inspection.Pointer | pkg/jobinspect/service.go:507-548 | the loop over the tokens computes the specified lookup with its first error |
| Inspection.PointerRefusedExactly | pkg/jobinspect/service.go:507-548 | exactly why a pointer is refused: nothing produced, no slash at the start, a bad escape, or a missing value, at the token where the walk stops |
| Inspection.EscapeIsEscapeEach | pkg/jobinspect/service.go:478-478 | two replacement passes escape as section 3 of RFC 6901 says |
| Inspection.UnescapeIsDecode | pkg/jobinspect/service.go:526-526 | two replacement passes decode a valid token as section 4 of RFC 6901 says, `~01` included |
| Inspection.EscapeDecodes | pkg/jobinspect/service.go:478-478 | every key survives escaping and decoding |
| Inspection.DecodeEscapes | pkg/jobinspect/service.go:526-526 | every valid token is the escape of what it decodes to |
| Inspection.PointerInvertsPrint | pkg/jobinspect/service.go:507-548 | looking up the printed pointer of a path follows exactly its keys, or reports a missing one |
| Inspection.PointerFindsExactly | pkg/jobinspect/service.go:507-548 | a pointer finds a value exactly when it is the pointer of a path that leads to it |
| Inspection.FieldPointerFindsField | pkg/jobinspect/service.go:463-481 | the pointer printed for a member finds that member |
| Inspection.ItemPointerFindsItem | pkg/jobinspect/service.go:534-545 | the pointer of a number in an array finds the item of that number |
| Inspection.ChildExactly | pkg/jobinspect/service.go:527-545 | a token leads to the member of that key, or to the item of that canonical number, and nowhere else |
| Inspection.PointersDistinct | pkg/jobinspect/service.go:463-481 | different keys get different pointers |
| Inspection.FieldsEnumerated | pkg/jobinspect/service.go:426-481 | so the fields of an object are paged exactly once each |

## Left out

- The legacy image and platform fields of a requirement are absent throughout; they depend on reference libraries outside the repository, and negotiation does not order them.
- Base names and quantities are sequences of characters: the UTF-8 check of a base is not modelled, and lengths count characters, not bytes.
- The text that the Kubernetes quantity type prints is a parameter; it is only assumed that such a text, when it carries a unit, denotes the quantity printed.
- Name rules (capabilities, packages, cells, secrets) are parameters, so nothing depends on the patterns behind them.
- Capabilities are a set, listed in ascending order where the program lists them.
- Which of several failing fields of an object is reported first, and the wording of error messages, are not modelled.
- Payloads and demand snapshots (`pkg/execution/demand.go`): the JSON round trip and the initial overlay of a submission are plumbing around the operations modelled here; a payload is a demand, nothing, or something that does not decode.
- Decoding permission specs and states from YAML and JSON is not modelled; the limit of a spec is its grant directly.
- Listing, capturing, editing and selecting hook policy documents are left out; they move entries around without deciding authority.
- Secret references and the contents of artifacts and checkpoints in input contracts are not modelled; a checkpoint is recognised by its marker key, and secret fields, native checkpoint values and the object type of a checkpoint are left out.
- InputContract.AdaptLegacyInputSchema: does not model the error for an invalid secret declaration, because secret fields are not modelled.
- Schema generation, form defaults and submitted-secret preparation of input contracts are left out.
- Guards are evaluated by a total function of an environment; CEL syntax and evaluation errors are not part of this model.
- The reader of condition texts knows parentheses, ordinary quoted literals and the operators the compiler writes; raw and triple-quoted literals of the expression language are not part of this model.
- Payload expressions on transitions are carried along, not evaluated.
- Operations, includes and child groups are leaves of the node tree in shared-node resolution.
- Definitions that fail to resolve are reported for whichever state is visited first; the model proves that every order names a real culprit, not which one.
- Lease storage, revisions and restricted lookups belong to JobDB and are not part of this model.
- The generation of a Git scope is a natural number; the wrap-around of its 64-bit counter is not modelled.
- Cancelling a Git scope and shutting it down are separate steps; sockets, files, redaction and the time to live of a secret value are reduced to whether resolution succeeds.
- Goroutines that outlive a callback are outside the callback accounting, as in the program.
- Host names are compared after folding ASCII letters only, where the program folds all letters.
- Selecting a Git profile by name and loading its document are left out; a profile is its entries.
- URL parsing, percent decoding and rewrite rules of Git profiles are left out; an endpoint is already split into scheme, host, port and path.
- Base64 and JSON text of cursors is an abstract one-to-one encoding, so a cursor is its content or nothing.
- Inspection projections other than paging, field pointers and lookup (histories, previews, downloads, job listing) are left out.
- Issuing a delegated credential is one step under its lock; the interleaving of an issuing call with a changing deadline is not modelled.
