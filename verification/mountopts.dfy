/** The option steps a volume is built with (MountOpts): each appends mount
    option strings to the volume's list, in the order the steps are given. */
module MountOpts {
  import opened GoStrings

  datatype MountOpt =
      /** WithOptions: the given options, as they are. */
    | WithOptions(extra: seq<string>)
      /** WithUsernameAndPassword: CIFS credentials. */
    | WithUsernameAndPassword(username: string, password: string)
      /** WithUIDGID: the CIFS owner of the mounted files. */
    | WithUIDGID(uid: int, gid: int)

  /** A "key=value" mount option, as fmt.Sprintf("key=%s", value) writes it. */
  function Setting(key: string, value: string): string
  {
    key + "=" + value
  }

  /** The options one step appends. */
  function Contribution(o: MountOpt): seq<string>
  {
    match o
    case WithOptions(extra) => extra
    case WithUsernameAndPassword(u, p) =>
      [Setting("username", u)] + (if p != "" then [Setting("password", p)] else [])
    case WithUIDGID(uid, gid) => [Setting("uid", Decimal(uid)), Setting("gid", Decimal(gid))]
  }

  /** Running one step on the option list it is handed. */
  function Apply(o: MountOpt, options: seq<string>): seq<string>
  {
    options + Contribution(o)
  }

  /** The constructors' loop: each step, in the order given, runs on the
      option list the steps before it left. */
  function ApplyAll(options: seq<string>, opts: seq<MountOpt>): seq<string>
    decreases |opts|
  {
    if |opts| == 0 then options
    else ApplyAll(Apply(opts[0], options), opts[1..])
  }

  /** Everything a list of steps appends, step by step. */
  function Appended(opts: seq<MountOpt>): seq<string>
  {
    if |opts| == 0 then [] else Contribution(opts[0]) + Appended(opts[1..])
  }

  /** Running the steps in order leaves the starting options in front and
      adds each step's options after those of the steps before it. */
  lemma {:induction false} ApplyAllAppends(options: seq<string>, opts: seq<MountOpt>)
    ensures ApplyAll(options, opts) == options + Appended(opts)
    decreases |opts|
  {
    if |opts| == 0 {
      assert options + [] == options;
    } else {
      var c, rest := Contribution(opts[0]), Appended(opts[1..]);
      ApplyAllAppends(options + c, opts[1..]);
      assert ApplyAll(options, opts) == ApplyAll(options + c, opts[1..]);
      assert Appended(opts) == c + rest;
      assert options + c + rest == options + (c + rest);
    }
  }

  /** WithOptions appends its options, in their order, after the existing
      ones, which it leaves as they were. */
  lemma WithOptionsAppends(options: seq<string>, extra: seq<string>)
    ensures ApplyAll(options, [WithOptions(extra)]) == options + extra
  {
    ApplyAllAppends(options, [WithOptions(extra)]);
    assert Appended([WithOptions(extra)]) == extra + [];
  }

  /** Steps given in two batches act like the batches run one after the other. */
  lemma {:induction false} AppendedConcat(a: seq<MountOpt>, b: seq<MountOpt>)
    ensures Appended(a + b) == Appended(a) + Appended(b)
    decreases |a|
  {
    if |a| == 0 {
      assert a + b == b;
    } else {
      assert (a + b)[0] == a[0];
      assert (a + b)[1..] == a[1..] + b;
      AppendedConcat(a[1..], b);
    }
  }

  /** A mount option split at its first '=': the key and the value, or the
      whole flag and no value. */
  function KeyValue(opt: string): (string, string)
  {
    var i := IndexOf(opt, '=');
    if i < |opt| then (opt[..i], opt[i + 1..]) else (opt, "")
  }

  function KeyValues(opts: seq<string>): (r: seq<(string, string)>)
    ensures |r| == |opts|
    ensures forall i :: 0 <= i < |opts| ==> r[i] == KeyValue(opts[i])
  {
    seq(|opts|, i requires 0 <= i < |opts| => KeyValue(opts[i]))
  }

  lemma KeyValueOf(key: string, value: string)
    requires '=' !in key
    ensures KeyValue(Setting(key, value)) == (key, value)
    ensures '=' in Setting(key, value)
  {
    var opt := Setting(key, value);
    assert opt[|key|] == '=';
    assert forall j :: 0 <= j < |key| ==> opt[j] == key[j];
    assert IndexOf(opt, '=') == |key|;
    assert opt[..|key|] == key;
    assert opt[|key| + 1..] == value;
  }

  /** WithUsernameAndPassword reads back as a username, then a password only
      when one was given; an empty password adds nothing. */
  lemma CredentialsRoundTrip(u: string, p: string)
    ensures KeyValues(Contribution(WithUsernameAndPassword(u, p)))
         == [("username", u)] + (if p == "" then [] else [("password", p)])
    ensures forall o :: o in Contribution(WithUsernameAndPassword(u, p)) ==> '=' in o
  {
    if p == "" {
      assert Contribution(WithUsernameAndPassword(u, p)) == [Setting("username", u)];
      SettingRoundTrip("username", u);
      assert [("username", u)] + [] == [("username", u)];
    } else {
      assert Contribution(WithUsernameAndPassword(u, p)) == [Setting("username", u), Setting("password", p)];
      SettingsRoundTrip("username", u, "password", p);
      assert [("username", u)] + [("password", p)] == [("username", u), ("password", p)];
    }
  }

  lemma SettingRoundTrip(k: string, v: string)
    requires '=' !in k
    ensures KeyValues([Setting(k, v)]) == [(k, v)]
  {
    KeyValueOf(k, v);
  }

  lemma SettingsRoundTrip(k1: string, v1: string, k2: string, v2: string)
    requires '=' !in k1 && '=' !in k2
    ensures KeyValues([Setting(k1, v1), Setting(k2, v2)]) == [(k1, v1), (k2, v2)]
  {
    KeyValueOf(k1, v1);
    KeyValueOf(k2, v2);
  }

  /** WithUIDGID reads back as the uid then the gid, each in decimal. */
  lemma OwnerRoundTrip(uid: int, gid: int)
    ensures KeyValues(Contribution(WithUIDGID(uid, gid)))
         == [("uid", Decimal(uid)), ("gid", Decimal(gid))]
    ensures forall o :: o in Contribution(WithUIDGID(uid, gid)) ==> '=' in o
    ensures IsDecimal(Decimal(uid)) && ParseDecimal(Decimal(uid)) == uid
    ensures IsDecimal(Decimal(gid)) && ParseDecimal(Decimal(gid)) == gid
  {
    assert Contribution(WithUIDGID(uid, gid)) == [Setting("uid", Decimal(uid)), Setting("gid", Decimal(gid))];
    SettingsRoundTrip("uid", Decimal(uid), "gid", Decimal(gid));
    DecimalRoundTrip(uid);
    DecimalRoundTrip(gid);
  }
}
