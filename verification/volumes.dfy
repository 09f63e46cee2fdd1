/** The three kinds of volume -- bind mounts, CIFS shares and iSCSI block
    devices -- and what each hands to the runtime: an OCI mount, containerd
    mounts, and the arguments of the mount system call. */
module Volumes {
  import opened Outcomes
  import opened MountOpts
  import Iscsi

  datatype Volume =
    | Bind(source: string, options: seq<string>)
    | Cifs(source: string, options: seq<string>)
    | IscsiVolume(target: Iscsi.Target, lun: int, fstype: string, options: seq<string>)

  /** specs.Mount: a mount in an OCI runtime spec. */
  datatype OciMount = OciMount(kind: string, source: string, destination: string, options: seq<string>)

  /** mount.Mount: a mount as containerd applies it (no destination). */
  datatype Mount = Mount(kind: string, source: string, options: seq<string>)

  /** The arguments of unix.Mount; the options go through parseMountOptions,
      which is defined outside bind.go, cifs.go, iscsi.go and
      volume.go, before the call. */
  datatype MountCall = MountCall(source: string, target: string, fstype: string, options: seq<string>)

  /** NewBindVolume: "bind" first, then what the steps append. */
  function NewBindVolume(source: string, opts: seq<MountOpt>): (v: Volume)
    ensures v.Bind? && v.source == source
    ensures v.options == ["bind"] + Appended(opts)
    ensures |v.options| > 0 && v.options[0] == "bind"
  {
    ApplyAllAppends(["bind"], opts);
    Bind(source, ApplyAll(["bind"], opts))
  }

  /** NewCifsVolume: only what the steps append. */
  function NewCifsVolume(source: string, opts: seq<MountOpt>): (v: Volume)
    ensures v.Cifs? && v.source == source
    ensures v.options == Appended(opts)
  {
    ApplyAllAppends([], opts);
    assert [] + Appended(opts) == Appended(opts);
    Cifs(source, ApplyAll([], opts))
  }

  /** NewIscsiVolume: builds the options, then logs in; no volume comes back
      unless the login succeeds, and a login error comes back unchanged. */
  function NewIscsiVolume(t: Iscsi.Target, lun: int, fstype: string, opts: seq<MountOpt>, host: Iscsi.Host)
    : (r: Outcome<Volume>)
    ensures r.Ok? <==> Iscsi.Login(t, host).Ok?
    ensures r.Ok? ==> r.value == IscsiVolume(t, lun, fstype, Appended(opts))
    ensures r.Err? <==> Iscsi.Login(t, host).Err?
    ensures r.Err? ==> r.error == Iscsi.Login(t, host).error
  {
    var options := ApplyAll([], opts);
    ApplyAllAppends([], opts);
    assert [] + Appended(opts) == Appended(opts);
    match Iscsi.Login(t, host)
    case Ok(_) => Ok(IscsiVolume(t, lun, fstype, options))
    case Err(e) => Err(e)
    case Blocked => Blocked
  }

  /** The type a volume's mounts carry. */
  function Kind(v: Volume): string
  {
    match v
    case Bind(_, _) => "bind"
    case Cifs(_, _) => "cifs"
    case IscsiVolume(_, _, fstype, _) => fstype
  }

  /** What is mounted: the source given, or the iSCSI device of the volume's LUN. */
  function Source(v: Volume): string
  {
    match v
    case Bind(source, _) => source
    case Cifs(source, _) => source
    case IscsiVolume(t, lun, _, _) => Iscsi.Path(t, lun)
  }

  /** OCIMount: the volume at `dest`, with its type, source and options. */
  function OCIMount(v: Volume, dest: string): (m: OciMount)
    ensures m.destination == dest && m.options == v.options
    ensures v.Bind? ==> m.kind == "bind" && m.source == v.source
    ensures v.Cifs? ==> m.kind == "cifs" && m.source == v.source
    ensures v.IscsiVolume? ==> m.kind == v.fstype && m.source == Iscsi.Path(v.target, v.lun)
  {
    OciMount(Kind(v), Source(v), dest, v.options)
  }

  /** Mounts: one mount; an iSCSI volume logs in again first and passes a
      failed or unfinished login on. */
  function Mounts(v: Volume, host: Iscsi.Host): (r: Outcome<seq<Mount>>)
    ensures !v.IscsiVolume? ==> r.Ok?
    ensures v.IscsiVolume? ==> (r.Ok? <==> Iscsi.Login(v.target, host).Ok?)
    ensures v.IscsiVolume? && r.Err? ==> Iscsi.Login(v.target, host) == Err(r.error)
    ensures r.Blocked? ==> v.IscsiVolume? && Iscsi.Login(v.target, host).Blocked?
    ensures r.Ok? ==> |r.value| == 1
  {
    var m := Mount(Kind(v), Source(v), v.options);
    if v.IscsiVolume? then
      match Iscsi.Login(v.target, host)
      case Ok(_) => Ok([m])
      case Err(e) => Err(e)
      case Blocked => Blocked
    else
      Ok([m])
  }

  /** Mount: the arguments of the mount system call; a bind volume is
      mounted with file system type "none", not "bind". */
  function MountArgs(v: Volume, dest: string): (c: MountCall)
    ensures c.target == dest && c.options == v.options
    ensures v.Bind? ==> c.fstype == "none" && c.source == v.source
    ensures v.Cifs? ==> c.fstype == "cifs" && c.source == v.source
    ensures v.IscsiVolume? ==> c.fstype == v.fstype && c.source == Iscsi.Path(v.target, v.lun)
  {
    match v
    case Bind(source, options) => MountCall(source, dest, "none", options)
    case Cifs(source, options) => MountCall(source, dest, "cifs", options)
    case IscsiVolume(t, lun, fstype, options) => MountCall(Iscsi.Path(t, lun), dest, fstype, options)
  }

  /** The mount Mounts reports is the OCI mount without its destination. */
  lemma MountsAgreeWithOCIMount(v: Volume, host: Iscsi.Host, dest: string)
    ensures Mounts(v, host).Ok? ==>
      var oci := OCIMount(v, dest);
      Mounts(v, host).value == [Mount(oci.kind, oci.source, oci.options)]
  {
  }

  /** The system call mounts what the OCI mount names, with the same options;
      only a bind volume's file system type differs. */
  lemma MountArgsAgreeWithOCIMount(v: Volume, dest: string)
    ensures MountArgs(v, dest).source == OCIMount(v, dest).source
    ensures MountArgs(v, dest).target == OCIMount(v, dest).destination
    ensures MountArgs(v, dest).options == OCIMount(v, dest).options
    ensures MountArgs(v, dest).fstype == OCIMount(v, dest).kind <==> !v.Bind?
  {
  }

  /** An iSCSI volume's mounts fail exactly when logging in again fails, and
      then with the login's error. */
  lemma IscsiMountsFollowLogin(t: Iscsi.Target, lun: int, fstype: string, opts: seq<MountOpt>,
                               first: Iscsi.Host, again: Iscsi.Host)
    requires NewIscsiVolume(t, lun, fstype, opts, first).Ok?
    ensures var v := NewIscsiVolume(t, lun, fstype, opts, first).value;
      && (Mounts(v, again).Ok? <==> Iscsi.Login(t, again).Ok?)
      && (Mounts(v, again).Ok? ==>
            Mounts(v, again).value == [Mount(fstype, Iscsi.Path(t, lun), Appended(opts))])
      && (Iscsi.Login(t, again).Err? ==> Mounts(v, again) == Err(Iscsi.Login(t, again).error))
  {
  }
}
