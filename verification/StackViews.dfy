/**
  * What the server derives from a list of containers: the update status of each stack, the containers of one stack
  * together with the services that have none, and whether a stack has drifted from its compose file.
  *
  * The daemon's answers, the parsed compose files and the registry's digests are parameters.
  */
module StackViews {
  import opened Common
  import opened Text

  /** A container's summary; the labels are those docker compose writes. */
  datatype Container = Container(
    project: Option<string>, service: Option<string>, oneoff: bool, configHash: string, image: string, imageId: string,
    details: string)

  datatype Image = Image(id: string, tags: seq<string>, repoDigests: seq<string>)

  datatype StaleStatus = UpToDate | Outdated | Unknown

  function OrEmpty(s: Option<string>): string {
    if s.Some? then s.value else ""
  }

  function At(m: map<string, string>, key: string): string {
    if key in m then m[key] else ""
  }

  // ---------------------------------------------------------------------------------------------------------------
  // The status of one container
  // ---------------------------------------------------------------------------------------------------------------

  predicate Contains(s: string, t: string)
    ensures Contains(s, t) <==> exists i :: 0 <= i <= |s| && t <= s[i..]
  {
    assert s[0..] == s;
    assert forall i :: 0 < i <= |s| ==> s[i..] == s[1..][i - 1..];
    t <= s || (s != "" && Contains(s[1..], t))
  }

  predicate IsHex(c: char) {
    '0' <= c <= '9' || 'a' <= c <= 'f'
  }

  predicate IsImageID(value: string) {
    "sha256:" <= value || (|value| == 12 && forall i :: 0 <= i < 12 ==> IsHex(value[i]))
  }

  predicate ValidImageTag(tag: string) {
    tag != "" && tag != "<none>:<none>" && !IsImageID(tag) && !Contains(tag, "@sha256:")
  }

  function FormatImageTag(tag: string): string {
    if "sha256:" <= tag then if |tag| > 19 then tag[7..19] else tag[7..] else tag
  }

  lemma ValidTags(tag: string)
    ensures ValidImageTag(tag) <==>
            && tag != "" && tag != "<none>:<none>" && !("sha256:" <= tag)
            && !(|tag| == 12 && forall i :: 0 <= i < 12 ==> '0' <= tag[i] <= '9' || 'a' <= tag[i] <= 'f')
            && forall i :: 0 <= i <= |tag| ==> !("@sha256:" <= tag[i..])
  {
    assert "@sha256:" <= tag ==> "@sha256:" <= tag[0..];
  }

  /** What is shown of an identifier: twelve characters after its prefix, or all of it if it has none. */
  ghost predicate ShownAs(id: string, shown: string) {
    if "sha256:" <= id then shown == (if |id[7..]| > 12 then id[7..][..12] else id[7..]) else shown == id
  }

  lemma FormatShows(id: string, shown: string)
    ensures shown == FormatImageTag(id) <==> ShownAs(id, shown)
  {
    if "sha256:" <= id && |id| > 19 {
      assert id[7..][..12] == id[7..19];
    }
  }

  /** The first valid tag of the image, if any. */
  function FirstValid(tags: seq<string>): (r: string)
    ensures r != "" ==> exists i :: 0 <= i < |tags| && tags[i] == r && ValidImageTag(r) &&
                                    forall j :: 0 <= j < i ==> !ValidImageTag(tags[j])
    ensures r == "" ==> forall tag :: tag in tags ==> !ValidImageTag(tag)
  {
    if tags == [] then ""
    else if ValidImageTag(tags[0]) then tags[0]
    else
      var r := FirstValid(tags[1..]);
      assert forall i :: 1 <= i < |tags| ==> tags[i] == tags[1..][i - 1];
      r
  }

  function ContainerImageTag(image: string, composeTag: string, tags: seq<string>): (r: string)
    ensures r != "" ==> ValidImageTag(r)
    ensures ValidImageTag(image) ==> r == image
    ensures !ValidImageTag(image) && ValidImageTag(composeTag) && '$' !in composeTag ==> r == composeTag
    ensures !ValidImageTag(image) && !(ValidImageTag(composeTag) && '$' !in composeTag) && r != "" ==>
              exists i :: 0 <= i < |tags| && tags[i] == r && forall j :: 0 <= j < i ==> !ValidImageTag(tags[j])
    ensures r == "" <==> !ValidImageTag(image) && (!ValidImageTag(composeTag) || '$' in composeTag) &&
                         forall tag :: tag in tags ==> !ValidImageTag(tag)
  {
    hide ValidImageTag;
    if ValidImageTag(image) then Tagged(image)
    else if ValidImageTag(composeTag) && '$' !in composeTag then Tagged(composeTag)
    else FirstValid(tags)
  }

  /** A valid tag, which is never the empty string. */
  function Tagged(tag: string): (r: string)
    requires ValidImageTag(tag)
    ensures r == tag && r != ""
  {
    tag
  }

  predicate DigestIn(repoDigests: seq<string>, digest: string) {
    exists d :: d in repoDigests && Contains(d, digest)
  }

  function StaleFromDigest(repoDigests: seq<string>, remote: Option<string>): StaleStatus {
    if remote.None? || remote.value == "" || repoDigests == [] then Unknown
    else if DigestIn(repoDigests, remote.value) then UpToDate
    else Outdated
  }

  /** `remote(i, tag)` is what the registry answers, for the i-th container of the list, when it is asked for a tag. */
  function ContainerStale(c: Container, images: map<string, Image>, composeTag: string,
                          remote: (nat, string) -> Option<string>, i: nat): StaleStatus
  {
    var id := FormatImageTag(c.imageId);
    if id !in images then Unknown
    else
      var tag := ContainerImageTag(c.image, composeTag, images[id].tags);
      if tag == "" then Unknown else StaleFromDigest(images[id].repoDigests, remote(i, tag))
  }

  // ---------------------------------------------------------------------------------------------------------------
  // The status of every stack
  // ---------------------------------------------------------------------------------------------------------------

  /** The loop of `aggregateStale`: it stops at the first outdated status and otherwise remembers an unknown one. */
  function Aggregate(statuses: seq<StaleStatus>, out: StaleStatus): StaleStatus {
    if statuses == [] then out
    else
      match statuses[0]
      case Outdated => Outdated
      case Unknown => Aggregate(statuses[1..], Unknown)
      case UpToDate => Aggregate(statuses[1..], out)
  }

  lemma {:induction false} AggregateIsJoin(statuses: seq<StaleStatus>, out: StaleStatus)
    requires !out.Outdated?
    ensures Aggregate(statuses, out) ==
            if Outdated in statuses then Outdated else if Unknown in statuses || out.Unknown? then Unknown else UpToDate
  {
    if statuses == [] {
    } else {
      assert statuses == [statuses[0]] + statuses[1..];
      if !statuses[0].Outdated? {
        AggregateIsJoin(statuses[1..], if statuses[0].Unknown? then Unknown else out);
      }
    }
  }

  /** What the statuses are computed from: the images, what reading a compose file gives, and the registry. */
  datatype World = World(
    images: seq<Image>, services: string -> map<string, string>, remote: (nat, string) -> Option<string>)

  /** The images by identifier; of two with one identifier, the later one. */
  function ById(images: seq<Image>): map<string, Image> {
    if images == [] then map[]
    else ById(images[..|images| - 1])[images[|images| - 1].id := images[|images| - 1]]
  }

  predicate BelongsTo(c: Container, name: string) {
    c.project == Some(name)
  }

  function StatusIn(w: World, name: string, i: nat, c: Container): StaleStatus {
    ContainerStale(c, ById(w.images), At(w.services(name), OrEmpty(c.service)), w.remote, i)
  }

  /** The statuses of a stack's containers, in the order of the list. */
  function Collected(w: World, containers: seq<Container>, name: string): seq<StaleStatus>
    decreases |containers|
  {
    if containers == [] then []
    else
      var n := |containers| - 1;
      var front := Collected(w, containers[..n], name);
      if BelongsTo(containers[n], name) then front + [StatusIn(w, name, n, containers[n])] else front
  }

  lemma {:induction false} CollectedHolds(w: World, containers: seq<Container>, name: string, status: StaleStatus)
    ensures status in Collected(w, containers, name) <==> HasStatus(w, containers, name, status)
    decreases |containers|
  {
    hide StatusIn;
    if containers == [] {
    } else {
      var n := |containers| - 1;
      var front := containers[..n];
      CollectedHolds(w, front, name, status);
      if i: nat :| StatusAt(w, front, i, name, status) {
        assert StatusAt(w, containers, i, name, status);
      }
      if i: nat :| StatusAt(w, containers, i, name, status) {
        assert i < n ==> StatusAt(w, front, i, name, status);
      }
      assert BelongsTo(containers[n], name) ==> StatusAt(w, containers, n, name, StatusIn(w, name, n, containers[n]));
    }
  }

  predicate StatusAt(w: World, containers: seq<Container>, i: nat, name: string, status: StaleStatus) {
    i < |containers| && BelongsTo(containers[i], name) && StatusIn(w, name, i, containers[i]) == status
  }

  ghost predicate HasStatus(w: World, containers: seq<Container>, name: string, status: StaleStatus) {
    exists i: nat :: StatusAt(w, containers, i, name, status)
  }

  /**
    * The specification, which knows neither memo table nor order: a stack on disk appears if some container belongs to
    * it, with the worst of its containers' statuses, outdated before unknown before up to date.
    */
  ghost predicate IsUpdates(out: map<string, StaleStatus>, w: World, names: seq<string>, containers: seq<Container>) {
    && (forall name :: name in out <==> name in names && exists c :: c in containers && BelongsTo(c, name))
    && (forall name :: name in out ==>
          out[name] == if HasStatus(w, containers, name, Outdated) then Outdated
                       else if HasStatus(w, containers, name, Unknown) then Unknown
                       else UpToDate)
  }

  lemma UpdatesFromCollected(out: map<string, StaleStatus>, w: World, names: seq<string>, containers: seq<Container>)
    requires forall name :: name in out <==> name in names && Collected(w, containers, name) != []
    requires forall name :: name in out ==> out[name] == Aggregate(Collected(w, containers, name), UpToDate)
    ensures IsUpdates(out, w, names, containers)
    ensures forall name :: name in out <==> name in names && exists c :: c in containers && c.project == Some(name)
  {
    hide Collected, StatusIn, Aggregate;
    forall name
      ensures Collected(w, containers, name) != [] <==> exists c :: c in containers && BelongsTo(c, name)
      ensures Aggregate(Collected(w, containers, name), UpToDate) ==
              if HasStatus(w, containers, name, Outdated) then Outdated
              else if HasStatus(w, containers, name, Unknown) then Unknown
              else UpToDate
    {
      var statuses := Collected(w, containers, name);
      AggregateIsJoin(statuses, UpToDate);
      CollectedHolds(w, containers, name, Outdated);
      CollectedHolds(w, containers, name, Unknown);
      if statuses != [] {
        assert statuses[0] in statuses;
        CollectedHolds(w, containers, name, statuses[0]);
      }
      if c :| c in containers && BelongsTo(c, name) {
        var i: nat :| i < |containers| && containers[i] == c;
        assert StatusAt(w, containers, i, name, StatusIn(w, name, i, c));
        CollectedHolds(w, containers, name, StatusIn(w, name, i, c));
      }
    }
  }

  /** The registry gives one answer per tag as long as the list is being made. */
  ghost predicate Steady(w: World) {
    forall i, j, tag :: w.remote(i, tag) == w.remote(j, tag)
  }

  lemma SteadyStatus(w: World, name: string, i: nat, j: nat, c: Container)
    requires Steady(w)
    ensures StatusIn(w, name, i, c) == StatusIn(w, name, j, c)
  {
    hide ContainerImageTag, StaleFromDigest, ById, At, FormatImageTag;
    var images, id := ById(w.images), FormatImageTag(c.imageId);
    if id in images {
      var tag := ContainerImageTag(c.image, At(w.services(name), OrEmpty(c.service)), images[id].tags);
      assert w.remote(i, tag) == w.remote(j, tag);
    }
  }

  lemma StatusMoves(w: World, name: string, status: StaleStatus, containers: seq<Container>, shuffled: seq<Container>)
    requires Steady(w) && HasStatus(w, containers, name, status)
    requires forall c :: c in containers ==> c in shuffled
    ensures HasStatus(w, shuffled, name, status)
  {
    hide StatusIn, Steady;
    var i: nat :| StatusAt(w, containers, i, name, status);
    assert containers[i] in shuffled;
    var j: nat :| j < |shuffled| && shuffled[j] == containers[i];
    SteadyStatus(w, name, i, j, containers[i]);
    assert StatusAt(w, shuffled, j, name, status);
  }

  // ---------------------------------------------------------------------------------------------------------------
  // What the statuses mean
  // ---------------------------------------------------------------------------------------------------------------

  /** The image of a container, by the shown form of its identifier; of two with one identifier, the later one. */
  ghost predicate HasImage(images: seq<Image>, imageId: string, image: Image) {
    ShownAs(imageId, image.id) &&
    exists k :: 0 <= k < |images| && images[k] == image && forall l :: k < l < |images| ==> images[l].id != image.id
  }

  /** The tag that the compose file gives for the container's service, if any. */
  function Declared(services: map<string, string>, service: Option<string>): (tag: string)
    ensures match service
            case Some(s) => tag == if s in services then services[s] else ""
            case None => tag == if "" in services then services[""] else ""
  {
    At(services, OrEmpty(service))
  }

  /** The container's image is in the list, has digests and a usable tag, and the registry gives a digest for that. */
  ghost predicate Judged(w: World, name: string, i: nat, c: Container, image: Image, digest: string) {
    HasImage(w.images, c.imageId, image) && image.repoDigests != [] && digest != "" &&
    var tag := ContainerImageTag(c.image, Declared(w.services(name), c.service), image.tags);
    tag != "" && w.remote(i, tag) == Some(digest)
  }

  ghost predicate Lists(repoDigests: seq<string>, digest: string) {
    exists k, at :: 0 <= k < |repoDigests| && 0 <= at <= |repoDigests[k]| && digest <= repoDigests[k][at..]
  }

  ghost predicate OutdatedAt(w: World, name: string, i: nat, c: Container) {
    exists image, digest :: Judged(w, name, i, c, image, digest) && !Lists(image.repoDigests, digest)
  }

  ghost predicate CurrentAt(w: World, name: string, i: nat, c: Container) {
    exists image, digest :: Judged(w, name, i, c, image, digest) && Lists(image.repoDigests, digest)
  }

  lemma {:induction false} ByIdIs(images: seq<Image>, id: string)
    ensures id in ById(images) ==>
              exists k :: 0 <= k < |images| && images[k] == ById(images)[id] && images[k].id == id &&
                          forall l :: k < l < |images| ==> images[l].id != id
    ensures id !in ById(images) ==> forall k :: 0 <= k < |images| ==> images[k].id != id
  {
    if images != [] {
      var n := |images| - 1;
      ByIdIs(images[..n], id);
      if images[n].id != id && id in ById(images) {
        var k :| 0 <= k < n && images[k] == ById(images)[id] && forall l :: k < l < n ==> images[..n][l].id != id;
        assert forall l :: k < l < |images| ==> images[l].id != id;
      }
    }
  }

  /** The map holds exactly the image that the list gives. */
  lemma ImageFound(images: seq<Image>, imageId: string, image: Image)
    ensures HasImage(images, imageId, image) <==>
            FormatImageTag(imageId) in ById(images) && ById(images)[FormatImageTag(imageId)] == image
  {
    hide FormatImageTag, ShownAs, ById;
    var id := FormatImageTag(imageId);
    FormatShows(imageId, image.id);
    ByIdIs(images, id);
    FormatShows(imageId, id);
  }

  lemma ListsIff(repoDigests: seq<string>, digest: string)
    ensures Lists(repoDigests, digest) <==> DigestIn(repoDigests, digest)
  {
    if DigestIn(repoDigests, digest) {
      var d :| d in repoDigests && Contains(d, digest);
      var k :| 0 <= k < |repoDigests| && repoDigests[k] == d;
      var at :| 0 <= at <= |d| && digest <= d[at..];
      assert digest <= repoDigests[k][at..];
    }
    if Lists(repoDigests, digest) {
      var k, at :| 0 <= k < |repoDigests| && 0 <= at <= |repoDigests[k]| && digest <= repoDigests[k][at..];
      assert Contains(repoDigests[k], digest);
    }
  }

  lemma StatusMeans(w: World, name: string, i: nat, c: Container)
    ensures StatusIn(w, name, i, c).Outdated? <==> OutdatedAt(w, name, i, c)
    ensures StatusIn(w, name, i, c).UpToDate? <==> CurrentAt(w, name, i, c)
  {
    hide FormatImageTag, HasImage, ById, ContainerImageTag, Lists, DigestIn, Declared;
    forall image: Image
      ensures HasImage(w.images, c.imageId, image) <==>
              FormatImageTag(c.imageId) in ById(w.images) && ById(w.images)[FormatImageTag(c.imageId)] == image
    {
      ImageFound(w.images, c.imageId, image);
    }
    assert At(w.services(name), OrEmpty(c.service)) == Declared(w.services(name), c.service);
    if FormatImageTag(c.imageId) in ById(w.images) {
      var image := ById(w.images)[FormatImageTag(c.imageId)];
      var tag := ContainerImageTag(c.image, Declared(w.services(name), c.service), image.tags);
      var remote := w.remote(i, tag);
      if tag != "" && remote.Some? {
        ListsIff(image.repoDigests, remote.value);
        assert Judged(w, name, i, c, image, remote.value) <==> remote.value != "" && image.repoDigests != [];
      }
    }
  }

  lemma UpdatesMean(out: map<string, StaleStatus>, w: World, names: seq<string>, containers: seq<Container>)
    requires IsUpdates(out, w, names, containers)
    ensures forall name :: name in out ==>
              (out[name].Outdated? <==>
               exists i: nat :: i < |containers| && containers[i].project == Some(name) &&
                                OutdatedAt(w, name, i, containers[i]))
    ensures forall name :: name in out ==>
              (out[name].UpToDate? <==>
               forall i: nat :: i < |containers| && containers[i].project == Some(name) ==>
                                CurrentAt(w, name, i, containers[i]))
  {
    hide StatusIn, OutdatedAt, CurrentAt;
    forall name: string, i: nat | i < |containers|
      ensures StatusIn(w, name, i, containers[i]).Outdated? <==> OutdatedAt(w, name, i, containers[i])
      ensures StatusIn(w, name, i, containers[i]).UpToDate? <==> CurrentAt(w, name, i, containers[i])
    {
      StatusMeans(w, name, i, containers[i]);
    }
    forall name, status: StaleStatus, i: nat | i < |containers| && containers[i].project == Some(name)
      ensures StatusIn(w, name, i, containers[i]) == status ==> HasStatus(w, containers, name, status)
    {
      assert StatusIn(w, name, i, containers[i]) == status ==> StatusAt(w, containers, i, name, status);
    }
  }

  /** The order of the containers makes no difference while the registry's answers stay the same. */
  lemma UpdatesIgnoreOrder(a: map<string, StaleStatus>, b: map<string, StaleStatus>, w: World, names: seq<string>,
                           containers: seq<Container>, shuffled: seq<Container>)
    requires multiset(containers) == multiset(shuffled) && Steady(w)
    requires IsUpdates(a, w, names, containers) && IsUpdates(b, w, names, shuffled)
    ensures a == b
  {
    hide StatusAt, Steady;
    forall c
      ensures c in containers <==> c in shuffled
    {
      assert c in containers <==> c in multiset(containers);
      assert c in shuffled <==> c in multiset(shuffled);
    }
    forall name, status
      ensures HasStatus(w, containers, name, status) <==> HasStatus(w, shuffled, name, status)
    {
      if HasStatus(w, containers, name, status) {
        StatusMoves(w, name, status, containers, shuffled);
      }
      if HasStatus(w, shuffled, name, status) {
        StatusMoves(w, name, status, shuffled, containers);
      }
    }
  }

  lemma CollectedSnoc(w: World, containers: seq<Container>, i: nat)
    requires i < |containers|
    ensures forall name :: Collected(w, containers[..i + 1], name) ==
              if BelongsTo(containers[i], name)
              then Collected(w, containers[..i], name) + [StatusIn(w, name, i, containers[i])]
              else Collected(w, containers[..i], name)
  {
    hide StatusIn;
    assert containers[..i + 1][..i] == containers[..i];
  }

  lemma CollectedNone(w: World)
    ensures forall name :: Collected(w, [], name) == []
  {
  }

  /** The statuses of every wanted stack; a compose file is read once, when the first of its containers is met. */
  method CollectPerStack(w: World, byId: map<string, Image>, wanted: set<string>, containers: seq<Container>)
    returns (perStack: map<string, seq<StaleStatus>>)
    requires byId == ById(w.images)
    ensures forall name :: name in perStack <==> name in wanted && Collected(w, containers, name) != []
    ensures forall name :: name in perStack ==> perStack[name] == Collected(w, containers, name)
  {
    hide ContainerStale, Collected, ById;
    perStack := map[];
    var serviceImages: map<string, map<string, string>> := map[];
    CollectedNone(w);
    for i := 0 to |containers|
      invariant forall p :: p in serviceImages ==> serviceImages[p] == w.services(p)
      invariant forall name :: name in perStack ==> name in wanted && perStack[name] != []
      invariant forall name :: name in wanted ==>
        Collected(w, containers[..i], name) == if name in perStack then perStack[name] else []
    {
      var c := containers[i];
      CollectedSnoc(w, containers, i);
      if c.project.None? || c.project.value !in wanted {
        continue;
      }
      var project := c.project.value;
      if project !in serviceImages {
        serviceImages := serviceImages[project := w.services(project)];
      }
      var status := ContainerStale(c, byId, At(serviceImages[project], OrEmpty(c.service)), w.remote, i);
      perStack := perStack[project := (if project in perStack then perStack[project] else []) + [status]];
    }
    assert containers[..|containers|] == containers;
  }

  method ListStackUpdates(w: World, names: seq<string>, containers: seq<Container>)
    returns (out: map<string, StaleStatus>)
    ensures IsUpdates(out, w, names, containers)
    ensures forall name :: name in out <==> name in names && exists c :: c in containers && c.project == Some(name)
    ensures forall name :: name in out ==>
              (out[name].Outdated? <==>
               exists i: nat :: i < |containers| && containers[i].project == Some(name) &&
                                OutdatedAt(w, name, i, containers[i]))
    ensures forall name :: name in out ==>
              (out[name].UpToDate? <==>
               forall i: nat :: i < |containers| && containers[i].project == Some(name) ==>
                                CurrentAt(w, name, i, containers[i]))
  {
    hide ContainerStale, Aggregate, IsUpdates, Collected, OutdatedAt, CurrentAt;
    var byId: map<string, Image> := map[];
    for i := 0 to |w.images|
      invariant byId == ById(w.images[..i])
    {
      assert w.images[..i + 1][..i] == w.images[..i];
      byId := byId[w.images[i].id := w.images[i]];
    }
    assert w.images[..|w.images|] == w.images;

    var wanted: set<string> := {};
    for i := 0 to |names|
      invariant forall name :: name in wanted <==> name in names[..i]
    {
      wanted := wanted + {names[i]};
    }
    assert names[..|names|] == names;

    var perStack := CollectPerStack(w, byId, wanted, containers);
    out := map[];
    for i := 0 to |names|
      invariant forall name :: name in out <==> name in names[..i] && name in perStack
      invariant forall name :: name in out ==> out[name] == Aggregate(perStack[name], UpToDate)
    {
      if names[i] in perStack && |perStack[names[i]]| > 0 {
        out := out[names[i] := Aggregate(perStack[names[i]], UpToDate)];
      }
    }
    UpdatesFromCollected(out, w, names, containers);
    UpdatesMean(out, w, names, containers);
  }

  // ---------------------------------------------------------------------------------------------------------------
  // The containers of one stack
  // ---------------------------------------------------------------------------------------------------------------

  /** An entry of the list; `details` stands for what the list shows besides. */
  datatype ContainerInfo = ContainerInfo(service: Option<string>, name: string, image: string, missing: bool,
                                         details: string)

  /** What a compose file says of a service, as far as the list needs it. */
  datatype Service = Service(image: string, labels: string)

  function Key(info: ContainerInfo): string {
    if info.service.Some? then info.service.value else info.name
  }

  function MissingEntry(name: string, service: Service): ContainerInfo {
    ContainerInfo(Some(name), "-", if service.image == "" then "-" else FormatImageTag(service.image), true,
                  service.labels)
  }

  function Mapped(containers: seq<Container>, info: Container -> ContainerInfo): seq<ContainerInfo> {
    seq(|containers|, i requires 0 <= i < |containers| => info(containers[i]))
  }

  ghost predicate Named(containers: seq<Container>, service: string) {
    exists c :: c in containers && c.service == Some(service)
  }

  function MissingEntries(names: seq<string>, services: map<string, Service>): seq<ContainerInfo>
    requires forall name :: name in names ==> name in services
  {
    seq(|names|, i requires 0 <= i < |names| => assert names[i] in names; MissingEntry(names[i], services[names[i]]))
  }

  ghost predicate IsUnnamed(name: string, containers: seq<Container>, services: map<string, Service>) {
    name in services && forall c :: c in containers ==> c.service != Some(name)
  }

  /** The services that no container names, each once. */
  ghost predicate Unnamed(names: seq<string>, containers: seq<Container>, services: map<string, Service>) {
    && (forall i, j :: 0 <= i < j < |names| ==> names[i] != names[j])
    && (forall name :: name in names <==> IsUnnamed(name, containers, services))
  }

  ghost predicate IsMerge(out: seq<ContainerInfo>, containers: seq<Container>, info: Container -> ContainerInfo,
                          services: map<string, Service>, names: seq<string>)
  {
    Unnamed(names, containers, services) && SortedBy(out, Key) &&
    multiset(out) == multiset(Mapped(containers, info)) + multiset(MissingEntries(names, services))
  }

  /** How a service without containers is listed: no name, and no image unless the compose file gives one. */
  ghost predicate ShowsMissing(x: ContainerInfo, name: string, service: Service) {
    && x.service == Some(name) && x.name == "-" && x.missing && x.details == service.labels
    && (if service.image == "" then x.image == "-" else ShownAs(service.image, x.image))
  }

  lemma MissingShows(x: ContainerInfo, name: string, service: Service)
    ensures x == MissingEntry(name, service) <==> ShowsMissing(x, name, service)
  {
    hide FormatImageTag, ShownAs;
    FormatShows(service.image, x.image);
  }

  /** No entry shows a smaller name than an earlier one: the service's name if there is one, else the container's. */
  ghost predicate InOrder(out: seq<ContainerInfo>) {
    forall i, j :: 0 <= i < j < |out| ==>
      match (out[i].service, out[j].service)
      case (Some(s), Some(t)) => !Less(t, s)
      case (Some(s), None) => !Less(out[j].name, s)
      case (None, Some(t)) => !Less(t, out[i].name)
      case (None, None) => !Less(out[j].name, out[i].name)
  }

  lemma SortedInOrder(out: seq<ContainerInfo>)
    requires SortedBy(out, Key)
    ensures InOrder(out)
  {
    hide Less;
  }

  /** Every entry is a container or a service without one, and all of these have an entry, as many as there are. */
  ghost predicate Complete(out: seq<ContainerInfo>, containers: seq<Container>, info: Container -> ContainerInfo,
                           services: map<string, Service>)
  {
    && (forall x :: x in out ==>
          (exists c :: c in containers && x == info(c)) ||
          (exists name :: IsUnnamed(name, containers, services) && ShowsMissing(x, name, services[name])))
    && (forall c :: c in containers ==> info(c) in out)
    && (forall name :: IsUnnamed(name, containers, services) ==>
          exists x :: x in out && ShowsMissing(x, name, services[name]))
    && |out| == |containers| + |set name | name in services && IsUnnamed(name, containers, services)|
  }

  lemma MissingAre(names: seq<string>, containers: seq<Container>, services: map<string, Service>)
    requires Unnamed(names, containers, services)
    ensures forall x :: x in MissingEntries(names, services) ==>
              exists name :: IsUnnamed(name, containers, services) && ShowsMissing(x, name, services[name])
    ensures forall name :: IsUnnamed(name, containers, services) ==>
              exists x :: x in MissingEntries(names, services) && ShowsMissing(x, name, services[name])
  {
    hide ShowsMissing, MissingEntry;
    var missing := MissingEntries(names, services);
    forall i | 0 <= i < |names|
      ensures IsUnnamed(names[i], containers, services) && ShowsMissing(missing[i], names[i], services[names[i]])
    {
      assert names[i] in names;
      MissingShows(missing[i], names[i], services[names[i]]);
    }
    forall name | IsUnnamed(name, containers, services)
      ensures exists x :: x in missing && ShowsMissing(x, name, services[name])
    {
      assert name in names;
      var i :| 0 <= i < |names| && names[i] == name;
      assert missing[i] in missing;
    }
  }

  lemma MappedAre(containers: seq<Container>, info: Container -> ContainerInfo)
    ensures forall x :: x in Mapped(containers, info) <==> exists c :: c in containers && x == info(c)
  {
    var mapped := Mapped(containers, info);
    forall c | c in containers
      ensures info(c) in mapped
    {
      var i :| 0 <= i < |containers| && containers[i] == c;
      assert mapped[i] == info(c);
    }
  }

  lemma MergeComplete(out: seq<ContainerInfo>, containers: seq<Container>, info: Container -> ContainerInfo,
                      services: map<string, Service>, names: seq<string>)
    requires IsMerge(out, containers, info, services, names)
    ensures InOrder(out) && Complete(out, containers, info, services)
  {
    hide ShowsMissing, InOrder, IsUnnamed, Key, Less;
    SortedInOrder(out);
    MergeParts(out, containers, info, services, names);
    MergeSize(out, containers, info, services, names);
    hide Mapped, MissingEntries, Unnamed;
    MappedAre(containers, info);
    MissingAre(names, containers, services);
    InEither(out, Mapped(containers, info), MissingEntries(names, services));
  }

  lemma MergeSize(out: seq<ContainerInfo>, containers: seq<Container>, info: Container -> ContainerInfo,
                  services: map<string, Service>, names: seq<string>)
    requires IsMerge(out, containers, info, services, names)
    ensures |out| == |containers| + |set name | name in services && IsUnnamed(name, containers, services)|
  {
    hide IsUnnamed, Key, Less;
    MergeParts(out, containers, info, services, names);
    assert |out| == |multiset(out)| && |Mapped(containers, info)| == |multiset(Mapped(containers, info))|;
    assert |MissingEntries(names, services)| == |multiset(MissingEntries(names, services))|;
    DistinctSize(names);
    assert (set name | name in names) == set name | name in services && IsUnnamed(name, containers, services);
  }

  lemma {:induction false} DistinctSize(names: seq<string>)
    requires forall i, j :: 0 <= i < j < |names| ==> names[i] != names[j]
    ensures |set name | name in names| == |names|
  {
    if names != [] {
      var n := |names| - 1;
      DistinctSize(names[..n]);
      assert (set name | name in names) == (set name | name in names[..n]) + {names[n]};
    }
  }

  lemma InEither(out: seq<ContainerInfo>, a: seq<ContainerInfo>, b: seq<ContainerInfo>)
    requires multiset(out) == multiset(a) + multiset(b)
    ensures forall x :: x in out <==> x in a || x in b
  {
    forall x
      ensures x in out <==> x in a || x in b
    {
      assert x in out <==> x in multiset(out);
      assert x in a <==> x in multiset(a);
      assert x in b <==> x in multiset(b);
    }
  }

  /**
    * `services` is empty when there is no readable compose file. The result is, in the order of service or container
    * names, an entry for each container and one for each service that no container names: nothing else and nothing
    * twice.
    */
  method GetStackContainers(containers: seq<Container>, info: Container -> ContainerInfo,
                            services: map<string, Service>)
    returns (out: seq<ContainerInfo>)
    ensures exists names :: IsMerge(out, containers, info, services, names)
    ensures InOrder(out) && Complete(out, containers, info, services)
  {
    hide InOrder, Complete, Less;
    out := [];
    for i := 0 to |containers|
      invariant out == Mapped(containers[..i], info)
    {
      assert Mapped(containers[..i + 1], info) == Mapped(containers[..i], info) + [info(containers[i])];
      out := out + [info(containers[i])];
    }
    assert containers[..|containers|] == containers;

    var known: set<string> := {};
    for i := 0 to |containers|
      invariant forall s :: s in known <==> Named(containers[..i], s)
    {
      NamedSnoc(containers, i);
      if containers[i].service.Some? {
        known := known + {containers[i].service.value};
      }
    }
    assert containers[..|containers|] == containers;

    var names := ServiceNames(services);
    var mapped := out;
    ghost var unnamed: seq<string> := [];
    for i := 0 to |names|
      invariant forall j, k :: 0 <= j < k < |unnamed| ==> unnamed[j] != unnamed[k]
      invariant forall s :: s in unnamed <==> s in names[..i] && s !in known
      invariant out == mapped + MissingEntries(unnamed, services)
    {
      assert names[i] in names && names[i] !in names[..i];
      if names[i] !in known {
        var grown := unnamed + [names[i]];
        assert MissingEntries(grown, services) ==
               MissingEntries(unnamed, services) + [MissingEntry(names[i], services[names[i]])];
        unnamed := grown;
        out := out + [MissingEntry(names[i], services[names[i]])];
      }
    }
    assert names[..|names|] == names;
    SortSorts(out, Key);
    out := Sort(out, Key);
    assert IsMerge(out, containers, info, services, unnamed);
    MergeComplete(out, containers, info, services, unnamed);
  }

  lemma NamedSnoc(containers: seq<Container>, i: nat)
    requires i < |containers|
    ensures forall s :: Named(containers[..i + 1], s) <==>
                        Named(containers[..i], s) || containers[i].service == Some(s)
  {
    var front, c := containers[..i], containers[i];
    assert containers[..i + 1] == front + [c];
    forall s
      ensures Named(front + [c], s) <==> Named(front, s) || c.service == Some(s)
    {
      assert c in front + [c];
    }
  }

  /** The names of the services in ascending order; a map iterates over its keys in no particular order. */
  method ServiceNames(services: map<string, Service>) returns (names: seq<string>)
    ensures forall name :: name in names <==> name in services
    ensures forall i, j :: 0 <= i < j < |names| ==> names[i] != names[j]
    ensures SortedBy(names, (name: string) => name)
  {
    names := [];
    var left := services.Keys;
    while left != {}
      invariant left <= services.Keys
      invariant forall name :: name in names <==> name in services && name !in left
      invariant forall i, j :: 0 <= i < j < |names| ==> names[i] != names[j]
      decreases |left|
    {
      var name :| name in left;
      names := names + [name];
      left := left - {name};
    }
    ghost var before := names;
    SortSorts(names, (name: string) => name);
    names := Sort(names, (name: string) => name);
    StillDistinct(before, names);
  }

  lemma StillDistinct(before: seq<string>, after: seq<string>)
    requires multiset(before) == multiset(after)
    requires forall i, j :: 0 <= i < j < |before| ==> before[i] != before[j]
    ensures forall i, j :: 0 <= i < j < |after| ==> after[i] != after[j]
    ensures forall x :: x in after <==> x in before
  {
    assert forall x :: x in before <==> x in multiset(before);
    assert forall x :: x in after <==> x in multiset(after);
    forall i, j | 0 <= i < j < |after|
      ensures after[i] != after[j]
    {
      if after[i] == after[j] {
        AtLeastTwice(after, i, j);
        AtMostOnce(before, after[i]);
      }
    }
  }

  lemma MissingOnly(names: seq<string>, containers: seq<Container>, services: map<string, Service>)
    requires Unnamed(names, containers, services)
    ensures forall x :: x in MissingEntries(names, services) ==>
                        x.missing && x.service.Some? && !Named(containers, x.service.value)
    ensures forall s :: s in services && !Named(containers, s) ==>
                        exists x :: x in MissingEntries(names, services) && x.service == Some(s)
  {
    var missing := MissingEntries(names, services);
    forall x | x in missing
      ensures x.missing && x.service.Some? && !Named(containers, x.service.value)
    {
      var i :| 0 <= i < |missing| && missing[i] == x;
      assert names[i] in names;
    }
    forall s | s in services && !Named(containers, s)
      ensures exists x :: x in missing && x.service == Some(s)
    {
      assert s in names;
      var i :| 0 <= i < |names| && names[i] == s;
      assert missing[i] in missing && missing[i].service == Some(s);
    }
  }

  lemma MappedOnly(containers: seq<Container>, info: Container -> ContainerInfo)
    requires forall c :: info(c).service == c.service && !info(c).missing
    ensures forall x :: x in Mapped(containers, info) && x.service.Some? ==>
                        !x.missing && Named(containers, x.service.value)
    ensures forall s :: Named(containers, s) ==> exists x :: x in Mapped(containers, info) && x.service == Some(s)
  {
    var mapped := Mapped(containers, info);
    forall x | x in mapped && x.service.Some?
      ensures !x.missing && Named(containers, x.service.value)
    {
      var i :| 0 <= i < |mapped| && mapped[i] == x;
      assert containers[i] in containers;
    }
    forall s | Named(containers, s)
      ensures exists x :: x in mapped && x.service == Some(s)
    {
      var c :| c in containers && c.service == Some(s);
      var i :| 0 <= i < |containers| && containers[i] == c;
      assert mapped[i] in mapped && mapped[i].service == Some(s);
    }
  }

  /** Every service of the compose file shows up, as one of its containers or as missing, never as both. */
  lemma EveryServiceOnce(out: seq<ContainerInfo>, containers: seq<Container>, info: Container -> ContainerInfo,
                         services: map<string, Service>, names: seq<string>, service: string)
    requires IsMerge(out, containers, info, services, names) && service in services
    requires forall c :: info(c).service == c.service && !info(c).missing
    ensures exists x :: x in out && x.service == Some(service)
    ensures forall x, y :: x in out && y in out && x.service == Some(service) && y.service == Some(service) ==>
                           x.missing == y.missing
  {
    MissingOnly(names, containers, services);
    MappedOnly(containers, info);
    hide *;
    var mapped, missing := Mapped(containers, info), MissingEntries(names, services);
    MergeParts(out, containers, info, services, names);
    InEither(out, mapped, missing);
  }

  lemma MergeParts(out: seq<ContainerInfo>, containers: seq<Container>, info: Container -> ContainerInfo,
                   services: map<string, Service>, names: seq<string>)
    requires IsMerge(out, containers, info, services, names)
    ensures Unnamed(names, containers, services) && forall name :: name in names ==> name in services
    ensures multiset(out) == multiset(Mapped(containers, info)) + multiset(MissingEntries(names, services))
  {
  }

  // ---------------------------------------------------------------------------------------------------------------
  // Drift
  // ---------------------------------------------------------------------------------------------------------------

  datatype DriftStatus = DriftUnknown | DriftOutdated | DriftInSync

  /** The container was created by `docker compose up` for a service whose current hash is known. */
  predicate Comparable(c: Container, hashes: map<string, string>) {
    !c.oneoff && OrEmpty(c.service) in hashes && c.configHash != ""
  }

  predicate Differs(c: Container, hashes: map<string, string>) {
    Comparable(c, hashes) && c.configHash != hashes[OrEmpty(c.service)]
  }

  method DriftFromContainers(containers: seq<Container>, hashes: map<string, string>) returns (status: DriftStatus)
    ensures status.DriftOutdated? <==>
              exists c :: c in containers && !c.oneoff && c.configHash != "" && OrEmpty(c.service) in hashes &&
                          c.configHash != hashes[OrEmpty(c.service)]
    ensures status.DriftUnknown? <==>
              forall c :: c in containers ==> c.oneoff || c.configHash == "" || OrEmpty(c.service) !in hashes
  {
    var compared := 0;
    for i := 0 to |containers|
      invariant compared >= 0
      invariant forall c :: c in containers[..i] ==> !Differs(c, hashes)
      invariant compared == 0 <==> forall c :: c in containers[..i] ==> !Comparable(c, hashes)
    {
      var c := containers[i];
      assert containers[..i + 1] == containers[..i] + [c];
      assert c in containers[..i + 1] && c in containers;
      if c.oneoff || OrEmpty(c.service) !in hashes || c.configHash == "" {
        continue;
      }
      compared := compared + 1;
      if c.configHash != hashes[OrEmpty(c.service)] {
        return DriftOutdated;
      }
    }
    assert containers[..|containers|] == containers;
    return if compared == 0 then DriftUnknown else DriftInSync;
  }
}
