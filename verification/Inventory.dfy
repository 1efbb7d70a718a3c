/** The secrets a client finds: the vault's paths as the folder listing and the list
    queries show them. */
module Inventory {
  import opened Text
  import opened Aead
  import opened PolicyDocument
  import opened Access
  import opened Keyring
  import opened SecretTree
  import opened Vault
  import opened VaultInvariant
  import opened VaultTheorems

  /** The rows the listing queries read. */
  function ListedPaths(t: Tables): set<string> {
    set path | path in t.secrets && !t.secrets[path].quarantined
  }

  ghost predicate PathsValid(t: Tables) { forall path <- t.secrets :: ValidPath(path) }

  /** Approved puts are the only writes whose path nobody checked. */
  ghost predicate ApprovedPathValid(w: World, step: Step) {
    step.ResolveStep? && Apply(w.t, step).Ok? && WriteOf(w.t, step).Some? ==> ValidPath(WriteOf(w.t, step).value.0)
  }

  lemma ResolveKeepsPathsValid(w: World, step: Step)
    requires step.ResolveStep? && PathsValid(w.t) && ApprovedPathValid(w, step)
    ensures PathsValid(Next(w, step).t)
  {
    if Apply(w.t, step).Ok? { ResolveResolves(w.t, step.id, step.approver, step.decision, step.draw); }
  }

  lemma PutKeepsPathsValid(w: World, step: Step)
    requires (step.PutStep? || step.PutOpenBaoStep?) && PathsValid(w.t)
    ensures PathsValid(Next(w, step).t)
  {
    if Apply(w.t, step).Ok? { PutStepAdds(w, step); }
  }

  lemma OtherStepsAddNoPath(w: World, step: Step)
    requires !step.PutStep? && !step.PutOpenBaoStep? && !step.ResolveStep?
    ensures Next(w, step).t.secrets.Keys <= w.t.secrets.Keys
  {
  }

  /** Over every run in which no approved payload has an invalid path, every stored path is
      valid. */
  lemma {:induction false} StoredPathsAreValid(master: Key, steps: seq<Step>)
    requires forall i :: 0 <= i < |steps| ==> ApprovedPathValid(At(Start(master), steps, i), steps[i])
    ensures PathsValid(Run(Start(master), steps).t)
  {
    if steps != [] {
      var n := |steps| - 1;
      var init, step := steps[..n], steps[n];
      forall i | 0 <= i < n ensures ApprovedPathValid(At(Start(master), init, i), init[i]) {
        assert init[..i] == steps[..i] && ApprovedPathValid(At(Start(master), steps, i), steps[i]);
      }
      StoredPathsAreValid(master, init);
      var w := At(Start(master), steps, n);
      if step.ResolveStep? {
        ResolveKeepsPathsValid(w, step);
      } else if step.PutStep? || step.PutOpenBaoStep? {
        PutKeepsPathsValid(w, step);
      } else {
        OtherStepsAddNoPath(w, step);
      }
    }
  }

  lemma ValidPathsAreListed(t: Tables)
    requires PathsValid(t)
    ensures ValidOnes(ListedPaths(t)) == ListedPaths(t)
    ensures forall path <- ListedPaths(t) :: path != "" && TrimSlashes(path) == path
  {
    forall path <- ListedPaths(t) ensures path != "" && TrimSlashes(path) == path { ValidPathTrimmed(path); }
  }

  /** In such a run every listed path is valid, and compared by the list queries as it is. */
  lemma TreeIsComplete(master: Key, steps: seq<Step>)
    requires forall i :: 0 <= i < |steps| ==> ApprovedPathValid(At(Start(master), steps, i), steps[i])
    ensures var listed := ListedPaths(Run(Start(master), steps).t);
            ValidOnes(listed) == listed && forall path <- listed :: path != "" && TrimSlashes(path) == path
  {
    StoredPathsAreValid(master, steps);
    ValidPathsAreListed(Run(Start(master), steps).t);
  }

  /** Walking the listing of any tables finds every valid secret that is not in quarantine
      exactly once. */
  method WalkSecrets(t: Tables) returns (leaves: seq<string>)
    ensures multiset(leaves) == multiset(ValidOnes(ListedPaths(t)))
  {
    leaves := Walk(ListedPaths(t), "");
    assert Under(ListedPaths(t), "") == ListedPaths(t);
  }

  /** In such a run the walk is complete: it finds every secret that is not in quarantine. */
  method WalkRun(ghost master: Key, ghost steps: seq<Step>, t: Tables) returns (leaves: seq<string>)
    requires t == Run(Start(master), steps).t
    requires forall i :: 0 <= i < |steps| ==> ApprovedPathValid(At(Start(master), steps, i), steps[i])
    ensures multiset(leaves) == multiset(ListedPaths(t))
  {
    TreeIsComplete(master, steps);
    leaves := WalkSecrets(t);
  }

  // ----- The list queries over runs -----

  /** The policy's document was accepted with exact keys, and then stored. */
  ghost predicate FromAccepted(policy: Policy) {
    exists raw :: Acceptable(policy.name, raw) && ExactKeys(raw) && StoredAs(raw, policy.document)
  }

  ghost predicate AttachesAccepted(step: Step) {
    step.AttachPoliciesStep? ==> forall policy <- step.policies :: FromAccepted(policy)
  }

  ghost predicate PoliciesRegular(t: Tables) {
    forall user <- t.policies, policy <- t.policies[user] :: Regular(policy.document)
  }

  lemma FromAcceptedIsRegular(policy: Policy)
    requires FromAccepted(policy)
    ensures Regular(policy.document)
  {
    var raw :| Acceptable(policy.name, raw) && ExactKeys(raw) && StoredAs(raw, policy.document);
    AcceptedIsStoredDecodable(policy.name, raw, policy.document);
  }

  lemma OtherStepsKeepPolicies(w: World, step: Step)
    requires !step.AttachPoliciesStep?
    ensures Next(w, step).t.policies == w.t.policies
  {
    if Apply(w.t, step).Ok? {
      if step.PutStep? || step.PutOpenBaoStep? {
        PutStepAdds(w, step);
      } else if step.ResolveStep? {
        ResolveResolves(w.t, step.id, step.approver, step.decision, step.draw);
      }
    }
  }

  lemma {:induction false} PoliciesStayRegular(master: Key, steps: seq<Step>)
    requires forall i :: 0 <= i < |steps| ==> AttachesAccepted(steps[i])
    ensures PoliciesRegular(Run(Start(master), steps).t)
  {
    if steps != [] {
      var init, step := steps[..|steps| - 1], steps[|steps| - 1];
      PoliciesStayRegular(master, init);
      if step.AttachPoliciesStep? {
        forall policy <- step.policies ensures Regular(policy.document) { FromAcceptedIsRegular(policy); }
      } else {
        OtherStepsKeepPolicies(Run(Start(master), init), step);
      }
    }
  }

  lemma RegularTablesAgree(t: Tables, user: Id, role: Role, path: string)
    requires PathsValid(t) && PoliciesRegular(t) && path in ListedPaths(t)
    ensures SqlVisible(role, PoliciesOf(t, user), path) <==> Allows(role, PoliciesOf(t, user), path, "list")
  {
    ValidPathsAreListed(t);
    ListQueriesAgree(role, PoliciesOf(t, user), path);
  }

  /** In a run in which approved payloads have valid paths and the policies attached were
      accepted with exact keys, the list query shows a user exactly the listed secrets that
      canAccess allows the user to list. */
  lemma QueriesAreComplete(master: Key, steps: seq<Step>, user: Id, role: Role, path: string)
    requires forall i :: 0 <= i < |steps| ==> ApprovedPathValid(At(Start(master), steps, i), steps[i])
    requires forall i :: 0 <= i < |steps| ==> AttachesAccepted(steps[i])
    requires path in ListedPaths(Run(Start(master), steps).t)
    ensures var policies := PoliciesOf(Run(Start(master), steps).t, user);
            SqlVisible(role, policies, path) <==> Allows(role, policies, path, "list")
  {
    StoredPathsAreValid(master, steps);
    PoliciesStayRegular(master, steps);
    RegularTablesAgree(Run(Start(master), steps).t, user, role, path);
  }
}
