/** The cleanup job: paged listings, the groups it protects, and what it deletes. */
module Cleanup {
  import opened Common

  datatype Result<+T> = Ok(value: T) | Err

  // ----- group names

  /** strings.Split on "-". */
  function SplitDash(s: string): (r: seq<string>)
    ensures |r| > 0
  {
    if s == "" then [""]
    else
      var rest := SplitDash(s[1..]);
      if s[0] == '-' then [""] + rest else [[s[0]] + rest[0]] + rest[1..]
  }

  function JoinDash(parts: seq<string>): string {
    if parts == [] then ""
    else if |parts| == 1 then parts[0]
    else parts[0] + "-" + JoinDash(parts[1..])
  }

  /** The group of a resource: the first three dash-separated parts of its name. */
  function ExtractPrefix(name: string): string {
    var parts := SplitDash(name);
    if |parts| >= 3 then JoinDash(parts[..3]) else name
  }

  function Dashes(s: string): nat {
    if s == "" then 0 else Dashes(s[1..]) + if s[0] == '-' then 1 else 0
  }

  /** The text before the k-th dash, all of it when there are fewer. */
  function Upto(s: string, k: nat): (r: string)
    requires k > 0
    ensures r <= s
  {
    if s == "" then ""
    else if s[0] != '-' then [s[0]] + Upto(s[1..], k)
    else if k == 1 then ""
    else "-" + Upto(s[1..], k - 1)
  }

  lemma {:induction false} JoinOfSplit(s: string, k: nat)
    requires k > 0
    ensures var parts := SplitDash(s);
            && JoinDash(if |parts| >= k then parts[..k] else parts) == Upto(s, k)
            && |parts| == Dashes(s) + 1
  {
    if s != "" {
      var rest, parts := SplitDash(s[1..]), SplitDash(s);
      if s[0] == '-' {
        JoinOfSplit(s[1..], if k == 1 then 1 else k - 1);
        if k > 1 {
          var taken := if |rest| >= k - 1 then rest[..k - 1] else rest;
          assert (if |parts| >= k then parts[..k] else parts) == [""] + taken;
          assert ([""] + taken)[1..] == taken;
        }
      } else {
        JoinOfSplit(s[1..], k);
        var taken := if |rest| >= k then rest[..k] else rest;
        var longer := if |parts| >= k then parts[..k] else parts;
        assert longer == [[s[0]] + rest[0]] + taken[1..];
        assert longer[1..] == taken[1..];
      }
    }
  }

  /** The split-and-join definition is the text before the third dash. */
  lemma {:induction false} GroupIsUptoThirdDash(name: string)
    ensures ExtractPrefix(name) == Upto(name, 3)
    ensures ExtractPrefix(name) <= name
  {
    JoinOfSplit(name, 3);
    JoinAll(name);
  }

  lemma {:induction false} JoinAll(s: string)
    ensures JoinDash(SplitDash(s)) == s
  {
    if s != "" {
      JoinAll(s[1..]);
      var rest, parts := SplitDash(s[1..]), SplitDash(s);
      if s[0] == '-' {
        assert parts[1..] == rest;
      } else {
        assert parts[1..] == rest[1..];
      }
    }
  }

  lemma {:induction false} UptoAppend(t: string, x: string, k: nat)
    requires k > 0
    ensures Dashes(t) >= k - 1 ==> Upto(t + "-" + x, k) == Upto(t, k)
    ensures Dashes(t) < k - 1 ==> Upto(t, k) == t && |Upto(t + "-" + x, k)| > |t|
  {
    var s := t + "-" + x;
    if t == "" {
      assert s[0] == '-';
    } else {
      assert s[0] == t[0] && s[1..] == t[1..] + "-" + x;
      if t[0] != '-' {
        UptoAppend(t[1..], x, k);
      } else if k > 1 {
        UptoAppend(t[1..], x, k - 1);
      }
    }
  }

  /** A firewall named by its tag is in the group of the droplets named tag-... exactly when
      the tag has at least three parts. */
  lemma {:induction false} FirewallSharesGroup(tag: string, suffix: string)
    ensures ExtractPrefix(tag + "-" + suffix) == ExtractPrefix(tag) <==> |SplitDash(tag)| >= 3
  {
    GroupIsUptoThirdDash(tag);
    GroupIsUptoThirdDash(tag + "-" + suffix);
    UptoAppend(tag, suffix, 3);
    JoinOfSplit(tag, 3);
  }

  // ----- paged listings

  const PER_PAGE := 200

  function PageOf<T>(all: seq<T>, page: nat): seq<T>
    requires page > 0
  {
    var from := if (page - 1) * PER_PAGE > |all| then |all| else (page - 1) * PER_PAGE;
    var to := if page * PER_PAGE > |all| then |all| else page * PER_PAGE;
    all[from..to]
  }

  /** The client answers a page request with that page of the listing, or fails. */
  ghost predicate Serves<T>(fetch: nat -> Result<seq<T>>, all: seq<T>) {
    forall p: nat :: p > 0 ==> fetch(p).Err? || fetch(p).value == PageOf(all, p)
  }

  /** One of the pages that a listing of n entries takes fails. */
  ghost predicate NeededPageFails<T>(fetch: nat -> Result<seq<T>>, n: nat) {
    exists p: nat :: 1 <= p <= n / PER_PAGE + 1 && fetch(p).Err?
  }

  /** The pagination loop ends with the whole listing, unless one of the pages it needs fails. */
  method ListAll<T>(fetch: nat -> Result<seq<T>>, ghost all: seq<T>) returns (r: Result<seq<T>>)
    requires Serves(fetch, all)
    ensures r.Ok? ==> r.value == all
    ensures r.Err? <==> NeededPageFails(fetch, |all|)
  {
    var page := 1;
    var listed: seq<T> := [];
    while true
      invariant page >= 1 && (page - 1) * PER_PAGE <= |all|
      invariant listed == all[..(page - 1) * PER_PAGE]
      invariant forall p: nat :: 1 <= p < page ==> fetch(p).Ok?
      decreases |all| - (page - 1) * PER_PAGE
    {
      var answer := fetch(page);
      if answer.Err? {
        return Err;
      }
      listed := listed + answer.value;
      if |answer.value| < PER_PAGE {
        return Ok(listed);
      }
      page := page + 1;
    }
  }

  // ----- protection

  datatype Droplet = Droplet(name: string, id: int, tags: seq<string>, created: Option<int>)

  datatype Settings = Settings(namePrefix: string, longRunningTag: string, now: int, dryRun: bool)

  const THIRTY_MINUTES := 1800

  /** Tagged long-running, with an unreadable creation time, or created in the last half hour. */
  predicate Protected(d: Droplet, cfg: Settings) {
    cfg.longRunningTag in d.tags || d.created.None? || cfg.now - d.created.value < THIRTY_MINUTES
  }

  ghost function ProtectedGroups(all: seq<Droplet>, cfg: Settings): set<string> {
    set d | d in all && cfg.namePrefix <= d.name && Protected(d, cfg) :: ExtractPrefix(d.name)
  }

  method GetSkippedDropletPrefixes(fetch: nat -> Result<seq<Droplet>>, cfg: Settings, ghost all: seq<Droplet>)
    returns (r: Result<map<string, bool>>)
    requires Serves(fetch, all)
    ensures r.Ok? ==> r.value.Keys == ProtectedGroups(all, cfg) && forall k :: k in r.value ==> r.value[k]
    ensures r.Err? <==> NeededPageFails(fetch, |all|)
  {
    var listing := ListAll(fetch, all);
    if listing.Err? {
      return Err;
    }
    var droplets := listing.value;
    var skipped: map<string, bool> := map[];
    for i := 0 to |droplets|
      invariant skipped.Keys == ProtectedGroups(droplets[..i], cfg)
      invariant forall k :: k in skipped ==> skipped[k]
    {
      var d := droplets[i];
      assert droplets[..i + 1] == droplets[..i] + [d];
      ProtectedGroupsStep(droplets[..i], d, cfg);
      if !(cfg.namePrefix <= d.name) {
        continue;
      }
      var prefix := ExtractPrefix(d.name);
      if prefix in skipped && skipped[prefix] {
        continue;
      }
      var hasLongRunningTag := HasTag(d.tags, cfg.longRunningTag);
      if hasLongRunningTag {
        skipped := skipped[prefix := true];
        continue;
      }
      if d.created.None? {
        skipped := skipped[prefix := true];
        continue;
      }
      if cfg.now - d.created.value < THIRTY_MINUTES {
        skipped := skipped[prefix := true];
      }
    }
    assert droplets[..|droplets|] == droplets;
    r := Ok(skipped);
  }

  lemma ProtectedGroupsStep(all: seq<Droplet>, d: Droplet, cfg: Settings)
    ensures ProtectedGroups(all + [d], cfg) ==
            ProtectedGroups(all, cfg) +
            if cfg.namePrefix <= d.name && Protected(d, cfg) then {ExtractPrefix(d.name)} else {}
  {
  }

  method HasTag(tags: seq<string>, tag: string) returns (found: bool)
    ensures found <==> tag in tags
  {
    found := false;
    for i := 0 to |tags|
      invariant !found && tag !in tags[..i]
    {
      if tags[i] == tag {
        found := true;
        break;
      }
    }
  }

  // ----- deletion

  /** A droplet or a firewall, as far as deletion looks at it. */
  datatype Resource = Resource(name: string, id: int)

  predicate ShouldSkip(name: string, skipped: map<string, bool>) {
    var prefix := ExtractPrefix(name);
    prefix in skipped && skipped[prefix]
  }

  predicate Selects(res: Resource, skipped: map<string, bool>, cfg: Settings) {
    cfg.namePrefix <= res.name && !ShouldSkip(res.name, skipped)
  }

  /** The selected resources, in listing order. */
  ghost function Selected(all: seq<Resource>, skipped: map<string, bool>, cfg: Settings): seq<Resource> {
    if all == [] then []
    else
      var front := Selected(all[..|all| - 1], skipped, cfg);
      if Selects(all[|all| - 1], skipped, cfg) then front + [all[|all| - 1]] else front
  }

  lemma {:induction false} SelectedMembers(all: seq<Resource>, skipped: map<string, bool>, cfg: Settings, res: Resource)
    ensures res in Selected(all, skipped, cfg) <==> res in all && Selects(res, skipped, cfg)
  {
    if all != [] {
      SelectedMembers(all[..|all| - 1], skipped, cfg, res);
      assert all == all[..|all| - 1] + [all[|all| - 1]];
    }
  }

  /** How many of the deletion requests succeed. */
  ghost function Deleted(requests: seq<Resource>, deletes: Resource -> bool): nat {
    if requests == [] then 0
    else Deleted(requests[..|requests| - 1], deletes) + if deletes(requests[|requests| - 1]) then 1 else 0
  }

  /** All of them exactly when every request succeeds, none exactly when every one fails, and
      the count of a listing is that of its parts. */
  lemma {:induction false} DeletedCounts(requests: seq<Resource>, more: seq<Resource>, deletes: Resource -> bool)
    ensures Deleted(requests, deletes) <= |requests|
    ensures Deleted(requests, deletes) == |requests| <==> forall res :: res in requests ==> deletes(res)
    ensures Deleted(requests, deletes) == 0 <==> forall res :: res in requests ==> !deletes(res)
    ensures Deleted(requests + more, deletes) == Deleted(requests, deletes) + Deleted(more, deletes)
    decreases |requests| + |more|
  {
    if more != [] {
      var z := |more| - 1;
      DeletedCounts(requests, more[..z], deletes);
      assert (requests + more)[..|requests| + z] == requests + more[..z];
    } else if requests != [] {
      var z := |requests| - 1;
      DeletedCounts(requests[..z], [], deletes);
      assert requests == requests[..z] + [requests[z]];
      assert requests + more == requests;
    } else {
      assert requests + more == [];
    }
  }

  /** The deletion requests that are made, in order; a request that fails is passed over. */
  method CleanupResources(fetch: nat -> Result<seq<Resource>>, skipped: map<string, bool>, cfg: Settings,
                          deletes: Resource -> bool, ghost all: seq<Resource>)
    returns (r: Result<seq<Resource>>, deletedCount: nat)
    requires Serves(fetch, all)
    ensures r.Ok? ==> r.value == if cfg.dryRun then [] else Selected(all, skipped, cfg)
    ensures deletedCount == if r.Ok? then Deleted(r.value, deletes) else 0
    ensures r.Err? <==> NeededPageFails(fetch, |all|)
  {
    deletedCount := 0;
    var listing := ListAll(fetch, all);
    if listing.Err? {
      return Err, 0;
    }
    var toDelete := Select(listing.value, skipped, cfg);
    if cfg.dryRun {
      return Ok([]), 0;
    }
    var requested: seq<Resource> := [];
    for i := 0 to |toDelete|
      invariant requested == toDelete[..i] && deletedCount == Deleted(requested, deletes)
    {
      assert toDelete[..i + 1][..i] == toDelete[..i];
      requested := requested + [toDelete[i]];
      if !deletes(toDelete[i]) {
        continue;
      }
      deletedCount := deletedCount + 1;
    }
    r := Ok(requested);
  }

  method Select(all: seq<Resource>, skipped: map<string, bool>, cfg: Settings) returns (selected: seq<Resource>)
    ensures selected == Selected(all, skipped, cfg)
  {
    selected := [];
    for i := 0 to |all|
      invariant selected == Selected(all[..i], skipped, cfg)
    {
      assert all[..i + 1][..i] == all[..i];
      if !(cfg.namePrefix <= all[i].name) {
        continue;
      }
      if ShouldSkip(all[i].name, skipped) {
        continue;
      }
      selected := selected + [all[i]];
    }
    assert all[..|all|] == all;
  }

  // ----- safety and completeness

  ghost predicate InGroup(d: Droplet, name: string) {
    ExtractPrefix(d.name) == ExtractPrefix(name)
  }

  /** When both listings agree, a resource bearing the name prefix is selected exactly when no
      droplet of its group that bears the name prefix is tagged long-running, without a readable
      time, or less than 1800 seconds old. */
  lemma SelectedIffUnprotected(all: seq<Droplet>, skipped: map<string, bool>, cfg: Settings, res: Resource)
    requires skipped.Keys == ProtectedGroups(all, cfg) && forall k :: k in skipped ==> skipped[k]
    requires cfg.namePrefix <= res.name
    ensures Selects(res, skipped, cfg) <==>
            forall d :: d in all && InGroup(d, res.name) && cfg.namePrefix <= d.name ==>
                        cfg.longRunningTag !in d.tags && d.created.Some? && d.created.value + 1800 <= cfg.now
  {
    if exists d :: d in all && InGroup(d, res.name) && cfg.namePrefix <= d.name && Protected(d, cfg) {
      var d :| d in all && InGroup(d, res.name) && cfg.namePrefix <= d.name && Protected(d, cfg);
      assert ExtractPrefix(d.name) in ProtectedGroups(all, cfg);
    }
  }

  /** A name prefix no longer than the group name is borne by the whole group or by none of it. */
  lemma GroupBearsPrefix(name: string, other: string, namePrefix: string)
    requires namePrefix <= name && |namePrefix| <= |ExtractPrefix(name)| && ExtractPrefix(other) == ExtractPrefix(name)
    ensures namePrefix <= other
  {
    GroupIsUptoThirdDash(name);
    GroupIsUptoThirdDash(other);
    var group := ExtractPrefix(name);
    assert name[..|group|] == group && other[..|group|] == group;
    assert namePrefix == group[..|namePrefix|];
  }

  /** With such a prefix, as the default one is for every testnet name, a resource is
      selected exactly when its group has no protected droplet at all. */
  lemma GroupProtection(all: seq<Droplet>, skipped: map<string, bool>, cfg: Settings, res: Resource)
    requires skipped.Keys == ProtectedGroups(all, cfg) && forall k :: k in skipped ==> skipped[k]
    requires cfg.namePrefix <= res.name && |cfg.namePrefix| <= |ExtractPrefix(res.name)|
    ensures Selects(res, skipped, cfg) <==>
            forall d :: d in all && InGroup(d, res.name) ==>
                        cfg.longRunningTag !in d.tags && d.created.Some? && d.created.value + 1800 <= cfg.now
  {
    SelectedIffUnprotected(all, skipped, cfg, res);
    forall d | d in all && InGroup(d, res.name)
      ensures cfg.namePrefix <= d.name
    {
      GroupBearsPrefix(res.name, d.name, cfg.namePrefix);
    }
  }

  /** Protection by age only lapses: what is selected stays selected at any later time. */
  lemma SelectionIsStable(all: seq<Droplet>, now: map<string, bool>, later: map<string, bool>, cfg: Settings, time: int, res: Resource)
    requires now.Keys == ProtectedGroups(all, cfg) && forall k :: k in now ==> now[k]
    requires later.Keys == ProtectedGroups(all, cfg.(now := time)) && forall k :: k in later ==> later[k]
    requires cfg.now <= time && Selects(res, now, cfg)
    ensures Selects(res, later, cfg.(now := time))
  {
    SelectedIffUnprotected(all, now, cfg, res);
    SelectedIffUnprotected(all, later, cfg.(now := time), res);
  }

  lemma {:induction false} UptoIdempotent(s: string, k: nat)
    requires k > 0
    ensures Upto(Upto(s, k), k) == Upto(s, k)
  {
    if s != "" {
      if s[0] != '-' {
        UptoIdempotent(s[1..], k);
        assert ([s[0]] + Upto(s[1..], k))[1..] == Upto(s[1..], k);
      } else if k > 1 {
        UptoIdempotent(s[1..], k - 1);
        assert ("-" + Upto(s[1..], k - 1))[1..] == Upto(s[1..], k - 1);
      }
    }
  }

  /** The bound on the prefix is exact: under any longer prefix there is a droplet of the
      resource's group that is protected and yet does not keep the resource. */
  lemma LongPrefixMissesProtection(cfg: Settings, res: Resource, d: Droplet)
    requires cfg.namePrefix <= res.name && |cfg.namePrefix| > |ExtractPrefix(res.name)|
    requires d == Droplet(ExtractPrefix(res.name), 0, [cfg.longRunningTag], None)
    ensures InGroup(d, res.name) && Protected(d, cfg)
    ensures ProtectedGroups([d], cfg) == {} && Selects(res, map[], cfg)
  {
    GroupIsUptoThirdDash(res.name);
    GroupIsUptoThirdDash(d.name);
    UptoIdempotent(res.name, 3);
  }
}
