/** Following `source_profile` pointers through an AWS configuration file. */
module ProfileChain {
  import opened Ir
  import opened Text

  const MAX_CHAIN_HOPS: nat := 8
  const REGION_MAX_BYTES: nat := 32

  type Props = map<string, string>

  type Sections = map<string, Props>

  datatype ProfileEntry = ProfileEntry(accountName: string, accountId: string, region: Option<string>, roleArn: Option<string>)

  /** The outcome of one walk. */
  datatype Outcome = ChainTooLong | NoAccount | Resolved(entry: ProfileEntry)

  // ---- the values a section holds -------------------------------------------------------------

  function Get(props: Props, key: string): Option<string> {
    if key in props then Some(props[key]) else None
  }

  predicate ValidRegion(s: string) {
    0 < |s| <= REGION_MAX_BYTES && forall i :: 0 <= i < |s| ==> 'a' <= s[i] <= 'z' || '0' <= s[i] <= '9' || s[i] == '-'
  }

  predicate ValidAccountId(s: string) {
    |s| == 12 && forall i :: 0 <= i < |s| ==> '0' <= s[i] <= '9'
  }

  /** The text before the first occurrence of `sep`. */
  function Before(s: string, sep: string): Option<string> {
    if StartsWith(s, sep) then Some("")
    else if s == [] then None
    else match Before(s[1..], sep) case Some(front) => Some([s[0]] + front) case None => None
  }

  /** The account of `arn:aws:iam::<account>:role/...`. */
  function ExtractAccountId(arn: string): (r: Option<string>)
    ensures r.Some? ==> ValidAccountId(r.value)
  {
    if !StartsWith(arn, "arn:aws:iam::") then None
    else
      match Before(arn[|"arn:aws:iam::"|..], ":role/")
      case Some(id) => if ValidAccountId(id) then Some(id) else None
      case None => None
  }

  /** An SSO account wins over the account of the role. */
  function AccountOf(props: Props): Option<string> {
    var sso := Get(props, "sso_account_id");
    if sso.Some? && ValidAccountId(sso.value) then sso
    else match Get(props, "role_arn") case Some(arn) => ExtractAccountId(arn) case None => None
  }

  function RegionOf(props: Props): Option<string> {
    var r := Get(props, "region");
    if r.Some? && ValidRegion(r.value) then r else None
  }

  function SourceOf(props: Props): Option<string> {
    var next := Get(props, "source_profile");
    if next == Some("") then None else next
  }

  // ---- the chain ------------------------------------------------------------------------------

  /** A profile ends the walk when it is undefined, holds an account or points nowhere. */
  predicate Stops(sections: Sections, profile: string) {
    profile !in sections || AccountOf(sections[profile]).Some? || SourceOf(sections[profile]).None?
  }

  /** The profile `k` pointers down the chain; the chain stays at the profile that ends it. */
  function At(sections: Sections, name: string, k: nat): string {
    if k == 0 then name
    else
      var prev := At(sections, name, k - 1);
      if Stops(sections, prev) then prev else SourceOf(sections[prev]).value
  }

  /** First of the two that is there. */
  function Or<T>(a: Option<T>, b: Option<T>): Option<T> {
    if a.Some? then a else b
  }

  function Section(sections: Sections, profile: string): Props {
    if profile in sections then sections[profile] else map[]
  }

  function RegionAt(sections: Sections, name: string, k: nat): Option<string> {
    RegionOf(Section(sections, At(sections, name, k)))
  }

  function RoleAt(sections: Sections, name: string, k: nat): Option<string> {
    Get(Section(sections, At(sections, name, k)), "role_arn")
  }

  /** The first valid region on the first `n` profiles of the chain. */
  function FirstRegion(sections: Sections, name: string, n: nat): Option<string> {
    if n == 0 then None
    else Or(FirstRegion(sections, name, n - 1), RegionAt(sections, name, n - 1))
  }

  function FirstRole(sections: Sections, name: string, n: nat): Option<string> {
    if n == 0 then None
    else Or(FirstRole(sections, name, n - 1), RoleAt(sections, name, n - 1))
  }

  /** None of the first `n` positions ends the walk. */
  ghost predicate Unended(sections: Sections, name: string, n: nat) {
    forall k :: 0 <= k < n ==> !Stops(sections, At(sections, name, k))
  }

  /** Position `n` is the first that ends the walk. */
  ghost predicate EndsAt(sections: Sections, name: string, n: nat) {
    Stops(sections, At(sections, name, n)) && Unended(sections, name, n)
  }

  /** What the walk yields when it ends at position `n`. */
  function Yield(sections: Sections, name: string, n: nat): Outcome {
    match AccountOf(Section(sections, At(sections, name, n)))
    case None => NoAccount
    case Some(id) => Resolved(ProfileEntry(name, id, FirstRegion(sections, name, n + 1), FirstRole(sections, name, n + 1)))
  }

  lemma WalkStarts(sections: Sections, name: string)
    ensures At(sections, name, 0) == name && Unended(sections, name, 0) && DistinctStrings([])
    ensures FirstRegion(sections, name, 0) == None && FirstRole(sections, name, 0) == None
  {
  }

  lemma DistinctSnoc(visited: seq<string>, cur: string)
    requires DistinctStrings(visited) && cur !in visited
    ensures DistinctStrings(visited + [cur])
  {
  }

  lemma NextSource(props: Props)
    ensures SourceOf(props) == if Get(props, "source_profile") == Some("") then None else Get(props, "source_profile")
  {
  }

  /** What the walk has gathered once it has looked at position `n`, and what ends it there. */
  lemma WalkEnds(sections: Sections, name: string, n: nat)
    requires Unended(sections, name, n)
    ensures var p := At(sections, name, n);
            && (p !in sections ==> EndsAt(sections, name, n) && Yield(sections, name, n) == NoAccount)
            && (p in sections && AccountOf(sections[p]).Some? ==>
                  EndsAt(sections, name, n) &&
                  Yield(sections, name, n) == Resolved(ProfileEntry(name, AccountOf(sections[p]).value,
                                                                     Or(FirstRegion(sections, name, n), RegionOf(sections[p])),
                                                                     Or(FirstRole(sections, name, n), Get(sections[p], "role_arn")))))
            && (p in sections && AccountOf(sections[p]).None? && SourceOf(sections[p]).None? ==>
                  EndsAt(sections, name, n) && Yield(sections, name, n) == NoAccount)
    ensures EndsAt(sections, name, n) && n <= MAX_CHAIN_HOPS ==> !Unended(sections, name, MAX_CHAIN_HOPS + 1)
  {
    hide ExtractAccountId, RegionOf;
  }

  lemma WalkGoesOn(sections: Sections, name: string, n: nat)
    requires Unended(sections, name, n)
    ensures var p := At(sections, name, n);
            p in sections && AccountOf(sections[p]).None? && SourceOf(sections[p]).Some? ==>
              && Unended(sections, name, n + 1) && At(sections, name, n + 1) == SourceOf(sections[p]).value
              && FirstRegion(sections, name, n + 1) == Or(FirstRegion(sections, name, n), RegionOf(sections[p]))
              && FirstRole(sections, name, n + 1) == Or(FirstRole(sections, name, n), Get(sections[p], "role_arn"))
  {
    hide AccountOf, RegionOf, SourceOf;
  }

  // ---- the walk -------------------------------------------------------------------------------

  /** `resolve_aws_profile`, with the list of visited profiles. */
  method ResolveProfile(name: string, sections: Sections) returns (r: Outcome, visited: seq<string>)
    ensures r == ChainTooLong <==> Unended(sections, name, MAX_CHAIN_HOPS + 1)
    ensures r != ChainTooLong ==>
              exists n :: 0 <= n <= MAX_CHAIN_HOPS && EndsAt(sections, name, n) && r == Yield(sections, name, n) && |visited| == n + 1
    ensures |visited| <= MAX_CHAIN_HOPS + 1 && DistinctStrings(visited)
    ensures forall k :: 0 <= k < |visited| ==> visited[k] == At(sections, name, k)
  {
    hide Stops, At, FirstRegion, FirstRole, AccountOf, RegionOf, SourceOf, Unended, DistinctStrings, Yield;
    visited := [];
    WalkStarts(sections, name);
    var cur := name;
    var lastRegion: Option<string> := None;
    var lastRole: Option<string> := None;
    var account: Option<string> := None;
    var hops := 0;
    while true
      invariant hops == |visited| <= MAX_CHAIN_HOPS && cur == At(sections, name, hops)
      invariant DistinctStrings(visited) && forall k :: 0 <= k < hops ==> visited[k] == At(sections, name, k)
      invariant Unended(sections, name, hops)
      invariant lastRegion == FirstRegion(sections, name, hops) && lastRole == FirstRole(sections, name, hops)
      invariant account == None
      decreases MAX_CHAIN_HOPS - hops
    {
      if cur in visited {
        var i :| 0 <= i < |visited| && visited[i] == cur;
        LoopNeverEnds(sections, name, i, hops);
        return ChainTooLong, visited;
      }
      DistinctSnoc(visited, cur);
      visited := visited + [cur];
      WalkEnds(sections, name, hops);
      WalkGoesOn(sections, name, hops);
      if cur !in sections {
        return NoAccount, visited;
      }
      var props := sections[cur];
      if lastRegion.None? {
        lastRegion := RegionOf(props);
      }
      if lastRole.None? {
        lastRole := Get(props, "role_arn");
      }
      account := AccountOf(props);
      if account.Some? {
        return Resolved(ProfileEntry(name, account.value, lastRegion, lastRole)), visited;
      }
      var next := Get(props, "source_profile");
      NextSource(props);
      if next.None? || next.value == "" {
        return NoAccount, visited;
      }
      if hops >= MAX_CHAIN_HOPS {
        return ChainTooLong, visited;
      }
      cur := next.value;
      hops := hops + 1;
    }
  }

  // ---- the visited list never decides ---------------------------------------------------------

  /** A chain that comes back to an earlier profile never ends. */
  lemma LoopNeverStops(sections: Sections, name: string, i: nat, j: nat)
    requires i < j && At(sections, name, i) == At(sections, name, j)
    requires Unended(sections, name, j)
    ensures forall k: nat :: !Stops(sections, At(sections, name, k))
  {
    forall k: nat ensures !Stops(sections, At(sections, name, k)) {
      var q := FoldedBack(sections, name, i, j, k);
    }
  }

  lemma LoopNeverEnds(sections: Sections, name: string, i: nat, j: nat)
    requires i < j && At(sections, name, i) == At(sections, name, j) && Unended(sections, name, j)
    ensures Unended(sections, name, MAX_CHAIN_HOPS + 1)
  {
    LoopNeverStops(sections, name, i, j);
  }

  /** Every position of a looping chain repeats one of the first `j`. */
  lemma {:induction false} FoldedBack(sections: Sections, name: string, i: nat, j: nat, k: nat) returns (q: nat)
    requires i < j && At(sections, name, i) == At(sections, name, j)
    requires Unended(sections, name, j)
    ensures q < j && At(sections, name, q) == At(sections, name, k)
    decreases k
  {
    if k < j {
      q := k;
    } else if k == j {
      q := i;
    } else {
      var p := FoldedBack(sections, name, i, j, k - 1);
      assert At(sections, name, p + 1) == At(sections, name, k);
      q := if p + 1 < j then p + 1 else i;
    }
  }

  /** Once ended, the chain stays where it is. */
  lemma {:induction false} StaysPut(sections: Sections, name: string, n: nat, k: nat)
    requires n <= k && Stops(sections, At(sections, name, n))
    ensures At(sections, name, k) == At(sections, name, n)
    decreases k
  {
    if n < k { StaysPut(sections, name, n, k - 1); }
  }

  /** The walk fails exactly when position 8 does not end it, so neither a repeated profile nor the
      list of visited ones has a say. */
  lemma OnlyTheLastHopDecides(sections: Sections, name: string)
    ensures Unended(sections, name, MAX_CHAIN_HOPS + 1) <==> !Stops(sections, At(sections, name, MAX_CHAIN_HOPS))
  {
    forall k | 0 <= k <= MAX_CHAIN_HOPS && Stops(sections, At(sections, name, k))
      ensures Stops(sections, At(sections, name, MAX_CHAIN_HOPS))
    {
      StaysPut(sections, name, k, MAX_CHAIN_HOPS);
    }
  }

  /** The region found along the way is that of the earliest profile with a valid one. */
  lemma {:induction false} RegionIsEarliest(sections: Sections, name: string, n: nat, k: nat)
    requires k < n && RegionAt(sections, name, k).Some? && forall j :: 0 <= j < k ==> RegionAt(sections, name, j).None?
    ensures FirstRegion(sections, name, n) == RegionAt(sections, name, k)
    decreases n
  {
    hide RegionAt;
    if k < n - 1 {
      RegionIsEarliest(sections, name, n - 1, k);
    } else {
      NoRegionYet(sections, name, k);
    }
  }

  lemma {:induction false} NoRegionYet(sections: Sections, name: string, n: nat)
    ensures FirstRegion(sections, name, n).None? <==> forall j :: 0 <= j < n ==> RegionAt(sections, name, j).None?
    decreases n
  {
    hide RegionAt;
    if n > 0 { NoRegionYet(sections, name, n - 1); }
  }

  /** So is the role. */
  lemma {:induction false} RoleIsEarliest(sections: Sections, name: string, n: nat, k: nat)
    requires k < n && RoleAt(sections, name, k).Some? && forall j :: 0 <= j < k ==> RoleAt(sections, name, j).None?
    ensures FirstRole(sections, name, n) == RoleAt(sections, name, k)
    decreases n
  {
    hide RoleAt;
    if k < n - 1 {
      RoleIsEarliest(sections, name, n - 1, k);
    } else {
      NoRoleYet(sections, name, k);
    }
  }

  lemma {:induction false} NoRoleYet(sections: Sections, name: string, n: nat)
    ensures FirstRole(sections, name, n).None? <==> forall j :: 0 <= j < n ==> RoleAt(sections, name, j).None?
    decreases n
  {
    hide RoleAt;
    if n > 0 { NoRoleYet(sections, name, n - 1); }
  }
}
