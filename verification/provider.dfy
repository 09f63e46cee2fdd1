/** VolumeProvider's registry: volumes by key, queried by containerd for the
    mounts of a key. Calls are taken one at a time; the mutex that serializes
    them in the program has no bearing on what each call returns. */
module Provider {
  import opened Outcomes
  import Iscsi
  import Volumes

  /** The name the provider registers under with containerd. */
  const ProviderId := "com.crosbymichael.volumes.provider.v1"

  datatype VolumeProvider = VolumeProvider(volumes: map<string, Volumes.Volume>)

  /** New: a provider with no volumes. */
  function New(): (p: VolumeProvider)
    ensures forall key :: key !in p.volumes
  {
    VolumeProvider(map[])
  }

  /** ID: the fixed plugin name, whatever the provider holds. */
  function ID(p: VolumeProvider): (id: string)
    ensures id == ProviderId
  {
    ProviderId
  }

  /** Add: registers `v` under `key`, replacing any volume already there. */
  function Add(p: VolumeProvider, key: string, v: Volumes.Volume): (r: VolumeProvider)
    ensures key in r.volumes && r.volumes[key] == v
    ensures forall k :: k != key ==> (k in r.volumes <==> k in p.volumes)
    ensures forall k :: k != key && k in p.volumes ==> r.volumes[k] == p.volumes[k]
  {
    VolumeProvider(p.volumes[key := v])
  }

  /** Mounts: the mounts of the volume under `key`, or a not-found error
      when there is none; the volume's own answer, error or not, is passed on
      unchanged. */
  function Mounts(p: VolumeProvider, key: string, host: Iscsi.Host): (r: Outcome<seq<Volumes.Mount>>)
    ensures key !in p.volumes ==> r == Err(NotFound)
    ensures key in p.volumes ==> r == Volumes.Mounts(p.volumes[key], host)
  {
    if key in p.volumes then Volumes.Mounts(p.volumes[key], host) else Err(NotFound)
  }

  /** Nothing is registered in a new provider. */
  lemma NewHasNoMounts(key: string, host: Iscsi.Host)
    ensures Mounts(New(), key, host) == Err(NotFound)
  {
  }

  /** After Add(key, v), the mounts of `key` are v's. */
  lemma AddThenMounts(p: VolumeProvider, key: string, v: Volumes.Volume, host: Iscsi.Host)
    ensures Mounts(Add(p, key, v), key, host) == Volumes.Mounts(v, host)
  {
  }

  /** Adding under one key changes nothing that another key reports. */
  lemma AddKeepsOtherKeys(p: VolumeProvider, key: string, v: Volumes.Volume, other: string, host: Iscsi.Host)
    requires other != key
    ensures Mounts(Add(p, key, v), other, host) == Mounts(p, other, host)
  {
  }

  /** The last volume added under a key wins. */
  lemma AddReplaces(p: VolumeProvider, key: string, v: Volumes.Volume, w: Volumes.Volume)
    ensures Add(Add(p, key, v), key, w) == Add(p, key, w)
  {
  }

  /** Adds under different keys give the same registry in either order. */
  lemma AddCommutes(p: VolumeProvider, k1: string, v1: Volumes.Volume, k2: string, v2: Volumes.Volume)
    requires k1 != k2
    ensures Add(Add(p, k1, v1), k2, v2) == Add(Add(p, k2, v2), k1, v1)
  {
    var m := p.volumes;
    assert m[k1 := v1][k2 := v2] == m[k2 := v2][k1 := v1];
  }
}
