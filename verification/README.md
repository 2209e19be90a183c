# Grafhome CA: verified model

Grafhome CA drives a Smallstep CA for a small fleet: hosts and users enroll keys, the CA origin
approves or revokes them, and policy is applied to `ca.json` and to the hosts' OpenSSH files. This
project models the logic that decides what may be issued and proves what it keeps through failures
and crashes.

Check it with `dafny verify dfyconfig.toml` (Dafny 4.11).

## How the model is laid out

- `Text`, `Names`, `Base64`, `Templates`, `Json`, `Rows`: strings, identity and provisioner names,
  key encodings and template guards, JSON trees, keyed tables.
- `Registry`, `Ledger`: the enrollment registry and the tracked revocation ledger.
- `AuthorityPolicy`, `Issuers`, `Reconciliation`, `CaConfig`, `Materialize`: edits of `ca.json`.
  `Contents` and `MergeOutcomes` say field by field what the edits leave in each provisioner,
  `Admission` exactly when an edit is accepted.
- `CaOrigin`: the protocol of approve, import, revoke and `apply ca` over the three durable stores.
  `CaServer` has the commands as methods on the stores, each proved equal to its protocol function.
  `CaSafety`, `CaActive` and `CaRecovery` hold the results about steps, runs and reruns, `CaOutcomes`
  what each command leaves in the stores when it ends well and exactly when its checks pass.
- `HostRenewal`: X.509 enrollment and renewal on a host, as files and as methods on them.
- `HostPolicy`: the OpenSSH file transaction and its KRLs.
- `PolicyDocuments`: canonical policy documents to normalized policy and back; `PolicyRows` has the
  rows, their order, and which documents load.

Commands on the CA run one at a time under a lock, so a command is a function of the stores and of
what the environment decides: the outcome of every durable write (it can fail or the process can
die, before or after the rename) and of every external check. A process that dies leaves exactly
the writes that landed, so the stores in the middle of a command are the final stores of the runs
that die there, and a statement about every outcome is a statement about every crash point.

SHA-256 is taken as injective: a public key, a DER key or a canonical JWK stands for its own
fingerprint. Time is an instant; durations enter as an abstract length.

## Where the code differs from what it promises

- A registry save can report an error after its rename (src/enrollment_registry.rs:487-497). If the
  rollback of `ca.json` then lands, an approval leaves an active record without a provisioner, and
  its retry is refused as active but missing. `CaActive.LosesIssuerExactly` and
  `CaRecovery.ApprovalResumes` give the exact conditions, `CaActive.RefusalIsReachable` an input.
- The SSH name parsers also accept upper-case hex and a plus sign in a pair
  (src/enrollment.rs:41-75), while the removal tests compare raw names, so a provisioner under such a
  name can outlive its revocation. `Names.SweepExactly` says which names escape, and
  `CaRecovery.RevocationIsComplete` that one of the scope is left exactly when a name escapes. A
  respelled user name is found by the inventory: the revocation completes and every retry is refused
  (`CaRecovery.SurvivorBlocksRetry`, `CaRecovery.RespelledProvisionerStays`). A respelled host name is
  not, because the inventory compares host names raw too: the revocation and its retries run through
  in silence (`CaRecovery.EscapeIsSilentExactly`, `CaRecovery.RespelledHostStays`).
- Revoking a host removes legacy SSHPOP provisioners, but an unnamed one is not reported, so on its
  own it does not cause the installation that would remove it.
  `CaRecovery.SshpopSurvivesExactly` says exactly when one is left, `CaRecovery.UnnamedSshpopStays`
  shows one.
- A renewal credential is replaced by removing the old directory first, which is not atomic, although
  src/x509.rs:676-679 promises the old or the new one. The promise holds exactly when no tombstoned
  credential has to be cleared (`HostRenewal.CredentialIsSwappedExactly`); a clearing cut short leaves
  a partial credential, which blocks enrollment even while it still signs
  (`HostRenewal.InterruptedClearingBlocks`).
- Policy validation and `write_canonical` accept a provisioner role that the canonical reader rejects
  (`PolicyDocuments.LoadsExactly`, `PolicyDocuments.UnknownRoleIsRefused`); the commands do not reach
  them with one, because they first apply a schema whose role is an enumeration
  (src/bin/grafhome-ca.rs:1836-1839, schemas/policy/legacy/provisioners.schema.json:16-18). One rewriting of the
  documents is not always a fixed point, because the inferred renewal maximum depends on the order
  of the users: `PolicyDocuments.OnePassIsExact` gives the condition on the policy, which users in
  key order meet (`PolicyDocuments.OrderedUsersNeedOnePass`), and
  `PolicyDocuments.OnePassIsNotEnough` a policy that fails it. A second rewriting always is one.
- Two issuer names can share a runtime placeholder; the first materialization is then refused, and
  otherwise never for its placeholders (`Materialize.RenderedSubstitutesExactly`,
  `Materialize.CollisionRefusesMerge`, `Materialize.CollidingIssuersAreRefused`).

## Model

| member | source | states |
|---|---|---|
| `Names.IdentityRoundTrip` | src/enrollment.rs:52-75 | decoding inverts encoding, encoded identities hold no separator, encoding is injective |
| `Names.ParseInvertsBuild` | src/enrollment.rs:21-50 | every built name parses back to its identity and as nothing else |
| `Names.NamesInjective` | src/enrollment.rs:21-39 | provisioner names are collision-free within and across the three families |
| `Names.FamiliesDisjoint` | src/enrollment.rs:21-50 | the three families' prefixes exclude each other |
| `Names.ParseX509Exact` | src/x509.rs:98-107 | the X.509 parser accepts exactly the image of its builder on non-empty names |
| `Names.AcmeNameRefused` | src/x509.rs:94-98 | the retired ACME name never qualifies |
| `Names.HostNameAliases` | src/enrollment.rs:48-75 | other spellings of the same hex decode to the same host |
| `Names.UserNameAliases` | src/enrollment.rs:41-75 | a user name in upper-case hex is not the built name and decodes to the same user and host |
| `Names.SelectionIsExact` | src/runtime_provisioners.rs:933-960 | on built names the inventory and the raw removal tests select exactly the scope's identities |
| `Names.SweepMissesRespelledNames` | src/bin/grafhome-ca.rs:5865-5893 | exactly when an inventoried provisioner escapes the removal |
| `Names.SweepExactly` | src/runtime_provisioners.rs:933-960 | of the names that decode into a scope, the removal takes exactly those that spell the host, or the selected parts of the user, as the builder does |
| `Names.SweepOfHostName` | src/runtime_provisioners.rs:945-961 | a name that decodes to a host is removed with that host exactly when it is the built name |
| `Names.InventoryMissesRespelledHosts` | src/bin/grafhome-ca.rs:5865-5893 | the inventory misses a name of the scope exactly when it is a host's and not the built one |
| `Names.RespelledNameEscapes` | src/runtime_provisioners.rs:938-943 | an inventoried user name that the raw prefix test misses |
| `Base64.DecodeEncoded` | src/x509.rs:131-142 | base64 decoding inverts encoding |
| `Base64.EncodeDecoded` | src/x509.rs:209-216 | only canonical base64 decodes |
| `Templates.PemRoundTrip` | src/x509.rs:131-165 | printing a key as PEM and parsing it returns the same key |
| `Templates.CoordinateIsText16` | src/x509.rs:187-200 | the zero-stripped hex coordinate is the number's own hexadecimal text |
| `Templates.GuardPinsOneKey` | src/x509.rs:225-257 | the comparison of coordinates tells the enrolled key from every other |
| `Templates.TemplateAdmitsOneKey` | src/x509.rs:225-257 | read as text, a pinned template compares both coordinates of the request on its second line, admits the pinned key and no other, and ends with the declared body |
| `Templates.TemplateKeepsKey` | src/x509.rs:202-257 | the pinned key is read back from the template whatever body follows |
| `Templates.TemplatesShareNoKey` | src/x509.rs:187-257 | two keys never share a template or both coordinates |
| `Templates.DenyTemplateDenies` | src/runtime_provisioners.rs:27-34 | the fixed deny templates pass the deny test |
| `Templates.PinnedTemplateIsNotDeny` | src/x509.rs:116-121 | a pinned template never passes for a deny template |
| `Templates.BindingIsExact` | src/runtime_provisioners.rs:552-570 | binding a bound template to its key returns it, to another key fails, and leaves the guard in front |
| `Templates.BindsExactly` | src/runtime_provisioners.rs:552-570 | a guarded template is kept, one marked otherwise is refused, any other gets the guard in front |
| `Templates.GuardedAdmitsOneKey` | src/runtime_provisioners.rs:552-570 | read as text, a guarded SSH template admits the bound key and no other |
| `Json.MaterialIsCanonical` | src/runtime_provisioners.rs:1040-1076 | canonical JWK material is its own canonical material |
| `AuthorityPolicy.ReconcileIsPut` | src/runtime_provisioners.rs:228-254 | the recursion is one path update and its flag reports exactly a change |
| `AuthorityPolicy.ReconcilePolicy` | src/runtime_provisioners.rs:198-226 | the loop performs all path updates; its flag is true exactly when the tree changed |
| `AuthorityPolicy.ReconciledExactly` | src/runtime_provisioners.rs:198-254 | managed paths hold the rendered policy, others are untouched, order is irrelevant, a second run changes nothing |
| `Registry.IdentityTextInjective` | src/enrollment_registry.rs:171-183 | the text a valid identity is displayed and looked up by belongs to no other valid identity |
| `Registry.CheckCandidateExact` | src/enrollment_registry.rs:615-658 | a candidate is accepted exactly when every record admits it |
| `Registry.ApplyKeepsValid` | src/enrollment_registry.rs:501-541 | validity is inductive under reserve, activate and mark_revoked |
| `Registry.RetriesAreIdempotent` | src/enrollment_registry.rs:500-541 | exact retries change nothing; reserving a held record changes nothing and activating it sets its one status from Pending to Active and nothing else |
| `Registry.HistoryKeepsTombstones` | src/enrollment_registry.rs:597-658 | over every history a revoked record is frozen and no other record ever shares its keys |
| `Registry.EnrollmentRegistry.Validate` | src/enrollment_registry.rs:660-694 | the one-pass set check decides validity |
| `Registry.EnrollmentRegistry.Check` | src/enrollment_registry.rs:615-658 | the loop computes the candidate check |
| `Registry.EnrollmentRegistry.ReserveRecord` | src/enrollment_registry.rs:501-511 | the new registry after a reservation |
| `Registry.EnrollmentRegistry.ActivateRecord` | src/enrollment_registry.rs:526-541 | the new registry after an activation |
| `Registry.EnrollmentRegistry.MarkRecordsRevoked` | src/enrollment_registry.rs:598-613 | revokes exactly the live selected records and returns their count |
| `Ledger.PrepareUpdate` | src/bin/grafhome-ca.rs:6017-6101 | the loop with two seen sets prepares exactly the appended ledger |
| `Ledger.AppendAllRecords` | src/bin/grafhome-ca.rs:6047-6069 | tombstones are only appended and every selected key is recorded |
| `Ledger.PrepareNeverRefused` | src/policy/mod.rs:725-857 | with a backing registry the updated ledger is always valid policy |
| `Issuers.UpsertPlaces` | src/runtime_provisioners.rs:454-500 | an upsert touches one place, under a unique name and an equal key |
| `Issuers.UpsertAgain` | src/runtime_provisioners.rs:454-500 | installing the same provisioner again changes nothing |
| `Issuers.RequirePlaces` | src/runtime_provisioners.rs:362-413 | the required issuer is unique, refreshed, and keeps its key |
| `Issuers.RefreshKeepsFaceExactly` | src/runtime_provisioners.rs:362-413 | refreshing an issuer keeps its pin exactly when it is no X.509 provisioner or its options carry the same pin |
| `Issuers.MergeClaimsExact` | src/runtime_provisioners.rs:327-360 | afterwards each owned claim has its policy value, every other claim and field the live one, and the flag reports exactly a change |
| `Issuers.AuthorizeExact` | src/runtime_provisioners.rs:848-930 | an approval adds exactly one face, that of the request's provisioner, and drops at most SSHPOP |
| `Issuers.AuthorizeAgain` | src/runtime_provisioners.rs:848-930 | approving again proposes the same provisioners |
| `Issuers.RemoveAgain` | src/runtime_provisioners.rs:980-1002 | a second removal finds nothing |
| `Issuers.RemainingFaces` | src/runtime_provisioners.rs:980-1002 | a removal keeps exactly what the raw tests do not match |
| `Issuers.BindExact` | src/runtime_provisioners.rs:573-675 | an import finds the one provisioner of the key, guards it, and importing again changes nothing |
| `Contents.SshApprovalInstalls` | src/bin/grafhome-ca.rs:7344-7368 | the one provisioner an SSH approval leaves under its name admits the key in the second token of the approved line alone, issues policy's body, refuses X.509 and holds the role's renewal durations |
| `Contents.CertificateApprovalInstalls` | src/x509.rs:260-292 | the one provisioner an X.509 approval leaves admits the approved key alone, and its template and claims are the declaration's |
| `Contents.ApprovalPlaces` | src/runtime_provisioners.rs:848-930 | besides it only the role's policy issuer changes, and that is refreshed with its own durations and options |
| `Contents.HostApprovalDropsSshpop` | src/runtime_provisioners.rs:899-922 | a host approval leaves no SSHPOP provisioner |
| `Contents.ImportInstalls` | src/runtime_provisioners.rs:573-675 | an import changes the one provisioner of the imported key: its own template goes behind the key's guard, X.509 is refused, the rest stays |
| `Admission.AuthorizesExactly` | src/runtime_provisioners.rs:848-930 | exactly when an approval's edit is accepted: policy foresees it, the policy issuer can be refreshed, the name is free or holds the same key |
| `Admission.BindsExactly` | src/runtime_provisioners.rs:573-675 | exactly when an import's edit is accepted |
| `Admission.ReconcilesExactly` | src/runtime_provisioners.rs:68-196 | `apply ca` succeeds exactly when both policy issuers are active and each provisioner is retired, can be rebuilt, or can take its claims and denies X.509 |
| `Issuers.FindPlaces` | src/runtime_provisioners.rs:466-471 | the search loop returns the places of a name |
| `Reconciliation.RemoveRetiredExact` | src/runtime_provisioners.rs:141-162 | exactly ACME and tombstoned X.509 provisioners go, in order |
| `Reconciliation.RetiredExactly` | src/runtime_provisioners.rs:141-162 | what goes is ACME or an X.509 provisioner with a tombstoned JWK or pinned key |
| `Reconciliation.RebuildExact` | src/x509.rs:322-337 | a rebuilt provisioner keeps name, JWK and pin and is its own rebuilding |
| `Reconciliation.ReconcileProvisionersAgain` | src/runtime_provisioners.rs:68-124 | reconciling is idempotent, keeps survivors in order, and reports exactly a change |
| `Reconciliation.OnlyPinnedIssuersRemain` | src/runtime_provisioners.rs:126-196 | afterwards no ACME is left and every JWK is denied X.509 or pinned, rebuilt from an active declaration and not tombstoned, with a template that admits its pinned key alone |
| `Contents.ReconciledContents` | src/runtime_provisioners.rs:68-124 | each survivor, in order, holds the durations, options and templates policy gives its name, written out by field; nothing else in it changes |
| `Reconciliation.ReconcileClaimsShape` | src/runtime_provisioners.rs:68-124 | only authority policy and provisioners of `ca.json` change |
| `Reconciliation.ReconcileClaimsAgain` | src/runtime_provisioners.rs:68-124 | `apply ca` on its own output is current |
| `Reconciliation.CurrentExactly` | src/bin/grafhome-ca.rs:4487-4489 | the reports are empty exactly when the configuration is unchanged |
| `CaConfig.LiveConfig.UpsertRenewal` | src/runtime_provisioners.rs:454-500 | push, replace or refuse, in place |
| `CaConfig.LiveConfig.RequireIssuer` | src/runtime_provisioners.rs:362-413 | refresh of the required issuer, in place |
| `CaConfig.LiveConfig.AuthorizeRequest` | src/runtime_provisioners.rs:848-930 | the edits of an approval, in place |
| `CaConfig.LiveConfig.BindExisting` | src/runtime_provisioners.rs:573-675 | the edit of an import, in place |
| `CaConfig.LiveConfig.RemoveMatching` | src/runtime_provisioners.rs:980-1002 | retain and report, in place |
| `CaConfig.LiveConfig.RemoveScope` | src/runtime_provisioners.rs:933-960 | the removal tests of each scope |
| `CaConfig.LiveConfig.RemoveRetiredProvisioners` | src/runtime_provisioners.rs:141-162 | drain into kept and removed, stopping at an unreadable key |
| `CaConfig.LiveConfig.ReconcileEach` | src/runtime_provisioners.rs:81-113 | the rewriting loop with its changed names |
| `CaConfig.LiveConfig.Reconcile` | src/runtime_provisioners.rs:68-124 | retire, reconcile and require deny templates, in place |
| `CaConfig.RequireDeny` | src/runtime_provisioners.rs:169-196 | finds whether any JWK lacks its deny template |
| `CaOrigin.InstallLeaves` | src/bin/grafhome-ca.rs:6483-6561 | every store an installation can leave, with the error after the write and outside the rollback |
| `CaOutcomes.InstallExactly` | src/bin/grafhome-ca.rs:6483-6561 | the exact files an installation leaves and exactly when it succeeds, fault by fault |
| `CaServer.CaStores.SaveRegistry` | src/enrollment_registry.rs:465-498 | validate, then one durable rename |
| `CaServer.CaStores.InstallCaJson` | src/bin/grafhome-ca.rs:6483-6561 | the installation, write by write |
| `CaServer.CaStores.ReserveApproval` | src/bin/grafhome-ca.rs:2980-3031 | the reservation and its refusals |
| `CaServer.CaStores.InstallApproval` | src/bin/grafhome-ca.rs:4289-4320 | propose, install and activate |
| `CaServer.CaStores.ApproveEnrollment` | src/bin/grafhome-ca.rs:3650-3690 | the whole approval |
| `CaServer.CaStores.ImportEnrollment` | src/bin/grafhome-ca.rs:2916-2978 | the import |
| `CaServer.CaStores.LiveInventory` | src/bin/grafhome-ca.rs:5895-5930 | one entry a display identity, refusing duplicates and unreadable keys |
| `CaServer.CaStores.RevokeEnrollments` | src/bin/grafhome-ca.rs:5814-5848 | ledger, then `ca.json`, then registry |
| `CaServer.CaStores.ApplyCaPolicy` | src/bin/grafhome-ca.rs:4461-4485 | `apply ca` with policy loaded before the lock |
| `CaSafety.TombstonesArePermanent` | src/bin/grafhome-ca.rs:3033-3082 | over every run, with registries restored at will, the ledger only grows and a tombstoned key is never approved or imported |
| `CaSafety.StepKeepsKeyCoverage` | src/bin/grafhome-ca.rs:2980-3031 | no step, cut short anywhere and under any policy, adds a renewal provisioner without a non-revoked record of its identity and JWK |
| `CaSafety.RunsStayKeyCovered` | src/bin/grafhome-ca.rs:5814-5848 | a run that starts fully covered by identity and JWK stays so |
| `CaSafety.StepKeepsCoverage` | src/bin/grafhome-ca.rs:2980-3031 | the same with the pinned X.509 key, while no policy issuer bears an X.509 renewal name |
| `CaSafety.RunsStayCovered` | src/bin/grafhome-ca.rs:5814-5848 | such a run that starts fully covered, pins included, stays fully covered |
| `CaSafety.StepKeepsConsistent` | src/bin/grafhome-ca.rs:6017-6101 | registry and ledger stay valid and backed, and no revocation is refused by the ledger |
| `CaOutcomes.SshApprovalDone` | src/bin/grafhome-ca.rs:3650-3690 | an SSH approval that ends well, after any faults: one record active, the others as they were, no tombstone of its keys, and the provisioner of `Contents.SshApprovalInstalls` in place |
| `CaOutcomes.CertificateApprovalDone` | src/bin/grafhome-ca.rs:4262-4320 | the same for a certificate, with the provisioner of `Contents.CertificateApprovalInstalls` |
| `CaOutcomes.ImportDone` | src/bin/grafhome-ca.rs:2916-2978 | the same for an import, with one provisioner changed |
| `CaOutcomes.RevocationDone` | src/bin/grafhome-ca.rs:5814-5848 | a revocation that ends well: in-scope live records revoked at its time, their tombstones appended with both keys, time and reason, of the built names exactly those in scope removed, in order; the rest as it was |
| `CaOutcomes.ApplicationDone` | src/bin/grafhome-ca.rs:4461-4485 | `apply ca` that ends well changes `ca.json` alone, to the survivors with what policy gives them |
| `CaOutcomes.CheckApprovalExactly` | src/bin/grafhome-ca.rs:2980-3082 | the check passes exactly when no tombstone holds either key, every record stands beside the candidate, and the live provisioner of the name agrees |
| `CaOutcomes.CheckRevocationExactly` | src/bin/grafhome-ca.rs:5895-5957 | the check passes exactly when the listed provisioners are readable, go by distinct texts, and each has a live record in scope with its renewal key |
| `CaOutcomes.ApprovesExactly` | src/bin/grafhome-ca.rs:3650-3690 | an undisturbed approval ends well exactly when its check passes and its edit is accepted |
| `CaOutcomes.UnknownIsRefusedFirst` | src/bin/grafhome-ca.rs:3935-3949 | an unknown host or undeclared certificate is refused with nothing written, no reservation either |
| `CaOutcomes.ImportsExactly` | src/bin/grafhome-ca.rs:2916-2978 | exactly when an undisturbed import ends well |
| `CaOutcomes.RevokesExactly` | src/bin/grafhome-ca.rs:5814-5848 | exactly when an undisturbed revocation ends well |
| `CaOutcomes.AppliesExactly` | src/bin/grafhome-ca.rs:4461-4485 | exactly when an undisturbed `apply ca` ends well |
| `CaActive.OnlyUntombstonedActivates` | src/bin/grafhome-ca.rs:3033-3082 | for any registry contents nothing tombstoned becomes active |
| `CaActive.LosesIssuerExactly` | src/bin/grafhome-ca.rs:6528-6556 | exactly which approvals leave an active record unaccounted for |
| `CaActive.RevokeAccounts` | src/bin/grafhome-ca.rs:5814-5848 | a revocation cut short anywhere keeps active records accounted for |
| `CaActive.ApplyAccounts` | src/runtime_provisioners.rs:141-162 | tombstone cleanup keeps active records accounted for |
| `CaActive.RunsStayAccounted` | src/bin/grafhome-ca.rs:3017-3025 | every store of a run has, for each active record, its provisioner or a tombstoned key exactly when no approval of the run loses its issuer (its save reports an error after the rename and the rollback takes back a provisioner that was not live before); a run without one never reaches the active-but-missing refusal |
| `CaActive.RefusalIsReachable` | src/bin/grafhome-ca.rs:3017-3025 | a concrete approval after which that refusal is reached |
| `CaRecovery.RevocationConverges` | src/bin/grafhome-ca.rs:5814-5848 | from every stopping point a rerun ends as if undisturbed, up to times and reasons |
| `CaRecovery.RevocationConvergesExactly` | src/bin/grafhome-ca.rs:5814-5848 | whatever interrupts it, a rerun completes, exactly when every inventoried provisioner is one the removal takes |
| `CaRecovery.RepeatedRevocationConverges` | src/bin/grafhome-ca.rs:5814-5848 | and so it does after any number of interrupted attempts |
| `CaRecovery.RevocationIsComplete` | src/bin/grafhome-ca.rs:5932-5957 | in-scope records are revoked, their keys recorded, the ledger has no duplicate; no provisioner whose name decodes into the scope is left exactly when the removal takes them all, and none the inventory lists exactly when it takes all of those |
| `CaRecovery.SurvivorBlocksRetry` | src/bin/grafhome-ca.rs:5932-5957 | an escaped provisioner makes every retry refuse |
| `CaRecovery.RespelledProvisionerStays` | src/bin/grafhome-ca.rs:5814-5848 | a concrete store whose revocation completes, leaves the provisioner live and refuses every retry |
| `CaRecovery.EscapeIsSilentExactly` | src/bin/grafhome-ca.rs:5865-5880 | a provisioner of the scope is left and the retry still runs through exactly when a respelled host is live and nothing inventoried escapes |
| `CaRecovery.RespelledHostStays` | src/bin/grafhome-ca.rs:5865-5880 | a concrete store whose host revocation completes, leaves the provisioner live, and is repeated without effect |
| `CaRecovery.SshpopSurvivesExactly` | src/runtime_provisioners.rs:980-1002 | a completed host revocation leaves an SSHPOP provisioner exactly when there is one and nothing else of the host is named or live |
| `CaRecovery.UnnamedSshpopStays` | src/bin/grafhome-ca.rs:5840-5842 | a concrete store whose removal names nothing, so the unnamed SSHPOP provisioner stays |
| `CaRecovery.ApprovalResumes` | src/bin/grafhome-ca.rs:3669-3697 | from every stopping point the same approval resumes to the undisturbed result, or is stranded, with the exact condition |
| `CaRecovery.RepeatedApprovalResumes` | src/bin/grafhome-ca.rs:3669-3697 | after any number of interrupted tries too, and a stranded one is refused for good |
| `CaRecovery.ImportTwice` | src/bin/grafhome-ca.rs:2943-2977 | importing the same export twice changes neither file |
| `CaRecovery.ImportConverges` | src/bin/grafhome-ca.rs:2943-2977 | an interrupted import ends as if undisturbed when repeated |
| `HostRenewal.RunsStayMatching` | src/x509.rs:1419-1439 | with no pending key a matching pair stays matching under its key over every run, faults and crashes included, unless an enrollment works from a tombstone of that key |
| `HostRenewal.PrintedKeyStaysEnrolled` | src/x509.rs:519-578 | the printed key stays enrolled until an enrollment replaces it after a tombstone |
| `HostRenewal.PrintedKeyBecomesValid` | src/x509.rs:1170-1294 | one accepted renewal then ends with a matching pair under the printed key and nothing pending, valid at every instant before its certificate expires and at no other; a published certificate had not expired when it was checked, a current one when it was assessed |
| `HostRenewal.RenewChangesOnlyByPublishing` | src/x509.rs:1205-1294 | step lemma of both: renewal changes the files only inside publication, and which outcomes that leaves |
| `HostRenewal.PublishWithoutPendingMatches` | src/x509.rs:1419-1439 | step lemma: one renewal keeps a matching pair with no pending key |
| `HostRenewal.ToleratedMeansValid` | src/x509.rs:1089-1097 | one step: a tolerated failure found the live pair valid in that run and changed nothing |
| `HostRenewal.CrashBetweenRenamesShows` | src/x509.rs:1250-1254 | one step: a crash between the renames shows as a mismatch and is renewed, whatever the declared lifetime |
| `HostRenewal.CredentialIsSwappedExactly` | src/x509.rs:676-724 | every enrollment ends with the old credential or the complete new one exactly when no tombstoned credential has to be cleared |
| `HostRenewal.PartialCredentialBlocks` | src/x509.rs:650-664 | a partial credential blocks every later enrollment |
| `HostRenewal.InterruptedClearingBlocks` | src/x509.rs:712-718 | a concrete enrollment cut short while clearing, after which no request is ever printed |
| `HostRenewal.PrintedIsFreshOrReused` | src/x509.rs:535-578 | a printed request carries the enrolled key and JWK unless they are missing or tombstoned, and then fresh ones; a fresh key is staged beside the untouched live pair |
| `HostRenewal.UnhinderedEnrollmentPrints` | src/x509.rs:535-578 | with nothing failing and no partial or unreadable credential, a request is printed |
| `HostRenewal.ClearedExactly` | src/x509.rs:680-724 | what is left of a tombstoned credential wherever its replacement stops |
| `HostRenewal.AssessedExactly` | src/x509.rs:1170-1203 | what each verdict of an assessment means |
| `HostRenewal.CurrentExactly` | src/x509.rs:1205-1246 | a renewal reports current exactly when a reading finds a working pair, nothing pending and over two thirds of the lifetime left |
| `HostRenewal.IssuedExactly` | src/x509.rs:1255-1294 | exactly when asking for a certificate publishes one, finds no one to sign, or dies |
| `HostRenewal.PublishedMeetsDeclaration` | src/x509.rs:1255-1294 | a certificate put in place is for the enrolled key and says what the declaration says |
| `HostRenewal.DueRenewalPublishes` | src/x509.rs:1205-1294 | an accepted renewal that finds something to do publishes |
| `HostRenewal.PublishedExactly` | src/x509.rs:1419-1439 | the exact files and end of a publication, fault by fault |
| `HostRenewal.X509Material.PublishCandidate` | src/x509.rs:1419-1439 | the two renames in order |
| `HostRenewal.X509Material.IssueCertificate` | src/x509.rs:1255-1294 | sign for the enrolled key, validate, publish |
| `HostRenewal.X509Material.RenewCertificate` | src/x509.rs:1205-1246 | assess, lock, assess again, issue, run the hook |
| `HostRenewal.X509Material.PrepareEnrollment` | src/x509.rs:535-578 | reuse, create or stage the key and print the request, as `PrintedIsFreshOrReused` says |
| `HostPolicy.TransactionIsAtomic` | src/bin/grafhome-ca.rs:4547-4604 | success reaches the desired files, a restored failure the initial ones, unmanaged paths never change |
| `HostPolicy.OutcomesExactly` | src/bin/grafhome-ca.rs:4547-4604 | exactly when a transaction is applied, restored, stuck, invalid or current, by its first fault |
| `HostPolicy.StaleFilesGo` | src/bin/grafhome-ca.rs:4773-4815 | a successful apply removes what the fixed paths and the principals directory hold unrendered, and nothing else |
| `HostPolicy.KeysAreLines` | src/bin/grafhome-ca.rs:4606-4642 | the keys of a rendered list are its trimmed nonempty lines, all of them and no other |
| `HostPolicy.RenderedLinesAreRevoked` | src/bin/grafhome-ca.rs:4606-4696 | an apply that ends applied or current leaves at each target a KRL that revokes every nonempty line rendered for it |
| `HostPolicy.KrlIsReusedExactly` | src/bin/grafhome-ca.rs:4644-4696 | a list compiles exactly when the queries work and generation does or is not needed; a complete KRL is reused as it is, any other made anew |
| `HostPolicy.CompileKrlExact` | src/bin/grafhome-ca.rs:4644-4696 | a compiled KRL revokes the rendered keys, the installed ones, and no other |
| `HostPolicy.SecondApplyIsCurrent` | src/bin/grafhome-ca.rs:4547-4696 | an immediate second apply reuses the KRLs byte for byte and finds no change |
| `HostPolicy.RunsKeepRevocations` | src/bin/grafhome-ca.rs:4606-4696 | a key revoked at a target stays revoked there over every run of applies that each render the target |
| `HostPolicy.HostFiles.Diff` | src/bin/grafhome-ca.rs:4749-4771 | the diff loop |
| `HostPolicy.HostFiles.CompileKrls` | src/bin/grafhome-ca.rs:4606-4642 | the KRL loop |
| `HostPolicy.HostFiles.SetEach` | src/bin/grafhome-ca.rs:4843-4853 | the write, removal and restore loops |
| `HostPolicy.HostFiles.ApplyLocked` | src/bin/grafhome-ca.rs:4547-4604 | diff, remember, apply and validate, or restore |
| `PolicyDocuments.LoadsExactly` | src/policy/document.rs:195-359 | the documents of a valid policy load exactly when its provisioner roles are known |
| `PolicyDocuments.UnknownRoleIsRefused` | src/policy/document.rs:524-529 | a concrete policy that passes validation and whose documents are refused |
| `PolicyDocuments.RewriteIsExact` | src/policy/document.rs:362-522 | reading and rewriting normal documents reproduces them exactly when their lifetimes are settled |
| `PolicyDocuments.OnePassIsExact` | src/policy/mod.rs:500-511 | one pass is a fixed point exactly when no provisioner spells out the maximum its users infer in key order but not in their own |
| `PolicyDocuments.OrderedUsersNeedOnePass` | src/policy/document.rs:362-522 | with users in key order one pass is a fixed point |
| `PolicyDocuments.UsersLoadSorted` | src/policy/document.rs:195-359 | users are read back unchanged and in key order |
| `PolicyDocuments.TwoPassesSuffice` | src/policy/document.rs:362-522 | a second pass always is |
| `PolicyDocuments.OnePassIsNotEnough` | src/policy/mod.rs:500-511 | a concrete policy that passes validation and that one pass does not settle |
| `PolicyDocuments.AuthorizationKept` | src/policy/document.rs:294-359 | enrollment rows are kept, and logins and enrollments are authorized exactly as before |
| `PolicyDocuments.RenewalLifetimesKept` | src/policy/document.rs:386-404 | effective renewal lifetimes keep their length |
| `PolicyRows.DocumentsLoadExactly` | src/policy/document.rs:195-359 | exactly which documents load, whoever wrote them |
| `PolicyRows.EndpointRows` | src/policy/document.rs:195-359 | an endpoint row is its document over https |
| `PolicyRows.ProvisionerRows` | src/policy/document.rs:195-359 | a provisioner row is its document, of the type its role allows |
| `PolicyRows.UserRows` | src/policy/document.rs:195-359 | a user row is its document, bound to the user issuer |
| `PolicyRows.HostRows` | src/policy/document.rs:195-359 | a host row is its document |
| `PolicyRows.HostsInFileOrder` | src/policy/document.rs:195-359 | hosts come in the order of their file names |
| `PolicyRows.RestKept` | src/policy/document.rs:195-522 | endpoints, hosts, revocations and the administrator flag survive writing and reading |
| `PolicyRows.LastLongestIsLast` | src/policy/mod.rs:500-511 | of the longest candidates the last is inferred |
| `Materialize.SubstituteExact` | src/runtime_provisioners.rs:748-766 | placeholders are replaced in place and no replacement is used twice |
| `Materialize.MergeIsComplete` | src/runtime_provisioners.rs:717-818 | no placeholder is left, each replacement is used once, each live renewal provisioner is carried once without its encrypted key and without colliding |
| `MergeOutcomes.MergedContents` | src/runtime_provisioners.rs:717-818 | the staged array with every placeholder replaced, then the surviving live renewal provisioners in name order, each rebuilt or holding its role's renewal durations, otherwise unchanged but for the encrypted key |
| `MergeOutcomes.MergesExactly` | src/runtime_provisioners.rs:717-818 | exactly when a merge succeeds |
| `Materialize.CarryOneExact` | src/runtime_provisioners.rs:783-812 | exactly the renewal provisioners without a tombstone are carried |
| `Materialize.RuntimeObjectExact` | src/runtime_provisioners.rs:1135-1191 | a replacement has its issuer's name, proved key, claims and options and no encrypted key, and keeps every other field of the live object |
| `MergeOutcomes.ReplacementContents` | src/runtime_provisioners.rs:1135-1191 | the fields of a replacement by name, and that it takes key and all else from the live object if there is one |
| `MergeOutcomes.ReplacementExactly` | src/runtime_provisioners.rs:1135-1191 | a replacement is built exactly when the local key is readable and a live one is the same |
| `Materialize.DistinctReplacements` | src/runtime_provisioners.rs:729-739 | each of distinctly named issuers gets its own replacement exactly when no two share a placeholder |
| `Materialize.RenderedSubstitutesExactly` | src/runtime_provisioners.rs:748-773 | over the rendered array every placeholder is replaced and nothing is left over exactly when no two issuers share one |
| `Materialize.CollisionRefusesMerge` | src/runtime_provisioners.rs:755-763 | a shared placeholder refuses every merge of the rendered array |
| `Materialize.PlaceholdersCollide` | src/render.rs:597-614 | two issuer names that share a placeholder |
| `MergeOutcomes.PlaceholderSpelled` | src/render.rs:597-614 | how a placeholder spells an issuer's name, byte by byte |
| `Materialize.CollidingIssuersAreRefused` | src/runtime_provisioners.rs:755-763 | two concrete issuers with one replacement between them, and the refusal of their merge |
| `Materialize.SubstituteEach` | src/runtime_provisioners.rs:748-766 | the placeholder loop |

## Left out

- Process execution, `step`, `ssh-keygen`, `systemctl`, network probes, timeouts and signals: each is
  an outcome the environment chooses.
- Cryptography and hashing: fingerprints are injective, tokens carry nothing.
- Terminal input, prompts, command parsing, printing, key chains and systemd credentials.
- File ownership and mode checks, symbolic links, and the template files kept beside `ca.json`.
- TOML and JSON text: documents are values, and bytes that differ only in formatting are a flag of
  the import command.
- Rendering: the authority policy, the SSH templates and the X.509 template body are given values.
- Duration syntax: a duration has an abstract length, and an unreadable one measures zero.
- SSH certificate renewal, request and grant envelopes, deployment settings, legacy documents.
- Policy rows are assumed well-formed as far as the documents rely on it
  (`PolicyDocuments.WellFormed`, `Issuers.JwkIssuers`); the concrete policies meet all that validation
  asks of policies without access rows, certificates, revocations and administrators
  (`PolicyDocuments.BareValidated`). The rest of `Policy::validate` is not part of this model.
- CaSafety.StepKeepsCoverage: for approvals it assumes that no policy issuer bears an X.509 renewal name
  (`CaOrigin.Command.SparesPins`), because refreshing such an issuer can take the pin of the live
  provisioner of that name (`Issuers.RefreshKeepsFaceExactly`); coverage by identity and JWK needs no
  such assumption (`CaSafety.StepKeepsKeyCoverage`). The results in `CaActive` on pinned keys assume
  the same.
- The KRL format: a KRL is the set of keys it revokes, and an update is a union.
- Materialize.MergeIsComplete: does not cover the check that local private keys decrypt, because it
  is one external command per issuer.
- HostPolicy.TransactionIsAtomic: does not model another program changing the same files during the
  transaction, because the host-policy lock excludes only Grafhome's own runs.
