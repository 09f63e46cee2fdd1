# volumes, modelled in Dafny

This project models the core of the `volumes` library. The library hands
containerd three kinds of volume:

- a bind mount,
- a CIFS share,
- an iSCSI block device, which is logged in to through `iscsiadm` and then
  polled for under `/dev/disk/by-path`.

A `VolumeProvider` keeps volumes by key and answers containerd's request for
the mounts of a key.

The model is a set of pure functions over immutable datatypes. Everything
the library gets from the outside world is an input:

- the result of running `iscsiadm`,
- what each round of the readiness poll observes,
- the state of the caller's context.

A result is `Ok`, `Err`, or `Blocked`. `Blocked` means the Go call is still
polling when the observations run out.

Modules:

- `GoStrings`: `strings.Contains`, byte search, and decimal formatting as
  `fmt`'s `%d` writes it.
- `FilePath`: `filepath.Join` and `filepath.Clean` on Unix.
- `HostPort`: `net.JoinHostPort` and its inverse.
- `Scanner`: line splitting as `bufio.ScanLines` does it.
- `Outcomes`: the errors and the three-case result.
- `Iscsi`: portals, targets, device paths, discovery parsing, login,
  logout, and the readiness poll.
- `MountOpts`: the option steps.
- `Volumes`: the three volume kinds and their mounts.
- `Provider`: the registry.

## Model

| member | source | states |
|---|---|---|
| GoStrings.Contains | iscsi.go:180-186 | the substring test is true exactly when the substring occurs at some offset of the text |
| GoStrings.DecimalRoundTrip | cifs.go:60-64 | a number written in decimal is a well-formed decimal numeral that reads back as the same number, negatives included, and is in %d's canonical form: no leading zero except for zero itself, and no "-0" |
| GoStrings.DecimalInjective | iscsi.go:123-127 | two numbers have the same decimal text exactly when they are equal |
| FilePath.JoinKeepsLastName | iscsi.go:123-127 | when the last element of the joined name is a proper name, joining it under an absolute directory keeps it as the last path element |
| FilePath.JoinPlainName | iscsi.go:123-127 | a slash-free proper name joined under /dev/disk/by-path is that directory, a slash, and the name unchanged |
| FilePath.SplitJoin | iscsi.go:123-127 | splitting at '/' and joining back with '/' is the identity on slash-free parts |
| HostPort.HostPortRoundTrip | iscsi.go:132-139 | net.SplitHostPort takes a joined bracket-free host and colon-free, bracket-free port back apart; a host holding ':' comes back only because it was bracketed, since the same parts joined without brackets are refused; the join is plain "host:port" exactly when the host holds no ':' |
| Scanner.Lines | iscsi.go:190-191 | each token the scanner yields holds no line feed; there are no tokens exactly when the buffer is empty, and never more tokens than characters |
| Scanner.ScanAll | iscsi.go:190-191 | any buffer, written as line-feed-terminated raw lines followed by an unterminated tail, scans to each raw line with one trailing carriage return dropped, whatever each line ends in, then the tail with its carriage return dropped when it is nonempty |
| Scanner.ScanTerminated | iscsi.go:188-198 | scanning lines that all end in "\n", or all end in "\r\n", plus an optional unterminated tail, gives back exactly those lines, then the tail when it is nonempty |
| Iscsi.NewPortal | iscsi.go:132-139 | for an IP without ':' the address is exactly IP, ':', then the port or 3260 when the port is empty; for an IP and a colon-free port without square brackets, net.SplitHostPort takes the portal address back into the IP and the port, or 3260 when the port is empty |
| Iscsi.Path | iscsi.go:123-127 | the device path is /dev/disk/by-path/ip-ADDRESS-iscsi-IQN-lun-N when neither address nor IQN holds a '/' |
| Iscsi.PathInjective | iscsi.go:123-127 | two LUNs of one target have the same device path exactly when they are equal, whatever the IQN's shape |
| Iscsi.AfterFirstSpaceOf | iscsi.go:199-204 | splitting a discovery line at its first space yields the IQN when the portal information holds no space |
| Iscsi.ParseTargets | iscsi.go:188-206 | parsing discovery output succeeds exactly when every non-blank scanned line holds a space; then there is one target per non-blank line, in order, named by the text after the first space, on the given portal; otherwise the error names the first malformed line |
| Iscsi.ParseLines | iscsi.go:188-206 | parsing succeeds exactly when every non-blank line holds a space; then there is one target per non-blank line, in order, named by the text after the first space, on the given portal; otherwise the error names the first malformed line |
| Iscsi.DiscoveryRoundTrip | iscsi.go:188-206 | discovery output written from well-formed records, with every line ended by "\n", or every line ended by "\r\n", parses back to those records' targets in order |
| Iscsi.DiscoveryWithBlankLine | iscsi.go:188-206 | a blank line between two entries is skipped and both targets come back in order |
| Iscsi.DiscoveryBareIqnLine | iscsi.go:188-206 | a nonblank discovery line without a space fails parsing and the error names that line |
| Iscsi.ParseAroundBlank | iscsi.go:195-204 | of three lines with a blank middle, the result is two targets when the last line holds a space and the last line's failure otherwise |
| Iscsi.Targets | iscsi.go:160-169 | a failed discovery is wrapped with "discover targets"; a successful run gives targets exactly when every non-blank line of its output holds a space, and then one target per non-blank line, in order, named by the text after the first space, all on the portal asked; otherwise the error names the first malformed line |
| Iscsi.FindTarget | iscsi.go:146-157 | the target with the requested IQN is found exactly when discovery lists it; a missing IQN gives a not-exist error; discovery errors pass through |
| Iscsi.Ready | iscsi.go:108-121 | the poll succeeds exactly when some round finds LUN 0's device node before the context is done, fails with the context's error exactly when the context is done first, and is still polling exactly when every observed round saw neither |
| Iscsi.ReadySeesOnlyLunZero | iscsi.go:108-121 | two observation traces that agree on cancellation and on LUN 0's device node give the same poll result |
| Iscsi.ReadyIgnoresOtherLuns | iscsi.go:108-121 | the device node of any LUN but 0 never ends the poll |
| Iscsi.ReadyCancelledFirst | iscsi.go:108-121 | a cancellation observed before the device node appears ends the poll with the context's error |
| Iscsi.IsPresentErr | iscsi.go:180-182 | a failure counts as "already present" exactly when that phrase occurs somewhere in the error text, output then ": " then cause, and so whenever the output or the cause holds it |
| Iscsi.IsNotSessionErr | iscsi.go:184-186 | a failure counts as "no session" exactly when "No matching sessions found" occurs somewhere in the error text, and so whenever the output or the cause holds it |
| Iscsi.Login | iscsi.go:79-92 | login succeeds exactly when iscsiadm reports an already-present session, or iscsiadm ran and the device node appeared; another iscsiadm failure is wrapped with "login"; a cancelled poll gives the context's error |
| Iscsi.LoginAlreadyPresent | iscsi.go:84-87 | an already-present session succeeds at once, whatever the poll would observe |
| Iscsi.Logout | iscsi.go:95-104 | logout succeeds exactly when iscsiadm ran or reported no matching session; any other failure is wrapped with "logout" |
| Iscsi.LogoutWithoutSession | iscsi.go:96-103 | logging out with no matching session is not an error |
| MountOpts.ApplyAllAppends | bind.go:18-20 | applying steps in order gives the starting options followed by each step's contribution, in step order |
| MountOpts.AppendedConcat | cifs.go:16-18 | steps given in two batches contribute the first batch's options, then the second's |
| MountOpts.WithOptionsAppends | volume.go:57-61 | WithOptions appends its options, in order, after the existing ones |
| MountOpts.CredentialsRoundTrip | cifs.go:51-58 | the credential options read back as username=U, then password=P only when P is nonempty, and each is written with its '=' even when the value is empty |
| MountOpts.OwnerRoundTrip | cifs.go:60-64 | the owner options read back as uid then gid, each written with its '=', and each value parses back to the given number |
| Volumes.NewBindVolume | bind.go:11-22 | a bind volume of the given source whose options are "bind" followed by what the steps append |
| Volumes.NewCifsVolume | cifs.go:12-20 | a CIFS volume of the given source whose options are exactly what the steps append |
| Volumes.NewIscsiVolume | iscsi.go:22-35 | a volume comes back exactly when login succeeds, carrying the target, LUN, file system type and appended options; a login error comes back unchanged |
| Volumes.OCIMount | iscsi.go:44-51 | the OCI mount carries the destination and options; its type and source are "bind", "cifs", or the file system type and the LUN's device path |
| Volumes.Mounts | iscsi.go:58-69 | bind and CIFS volumes always give one mount; an iSCSI volume gives one exactly when logging in again succeeds, and otherwise passes the login's error on |
| Volumes.MountArgs | bind.go:38-41 | the mount call mounts the volume's source at the destination with its options; a bind volume uses type "none" |
| Volumes.MountsAgreeWithOCIMount | cifs.go:41-49 | a successful Mounts reports the OCI mount without its destination |
| Volumes.MountArgsAgreeWithOCIMount | iscsi.go:53-56 | the mount call and the OCI mount agree on source, target and options, and on type exactly when the volume is not a bind mount |
| Volumes.IscsiMountsFollowLogin | iscsi.go:58-69 | an iSCSI volume's mounts succeed exactly when logging in again succeeds, report the LUN's device path, and otherwise carry the login's error |
| Provider.New | volume.go:18-22 | a new provider holds no volume |
| Provider.ID | volume.go:29-31 | the provider's ID is com.crosbymichael.volumes.provider.v1 |
| Provider.Add | volume.go:33-37 | the key maps to the added volume and every other key is unchanged |
| Provider.Mounts | volume.go:39-47 | an unknown key gives a not-found error; a known key gives its volume's own mounts or error |
| Provider.NewHasNoMounts | volume.go:39-47 | a new provider reports not found for every key |
| Provider.AddThenMounts | volume.go:33-47 | after adding a volume under a key, that key reports the volume's mounts |
| Provider.AddKeepsOtherKeys | volume.go:33-47 | adding under one key changes nothing another key reports |
| Provider.AddReplaces | volume.go:33-37 | the last volume added under a key replaces the earlier one |
| Provider.AddCommutes | volume.go:33-37 | adds under different keys give the same registry in either order |

## Left out

- `parseMountOptions` and the flag/data split of mount options are left out because `parseMountOptions` is defined outside the files modelled here (bind.go, cifs.go, iscsi.go, volume.go). `MountArgs` hands the option list on unparsed.
- `unix.Mount`, `os.Lstat`, `exec.CommandContext` and `time.Sleep` are not modelled as calls. Their results are inputs: the iscsiadm outcome and the per-round observations.
- The poll's 10 ms interval is not modelled, because timing has no bearing on the outcome.
- iscsiadm's argument lists are left out: the model sees only the command's outcome and output. This is also why `Iscsi.Logout` takes no target.
- `Iscsi.Ready`: does not tell `context.Canceled` from `context.DeadlineExceeded`. Both are `ContextDone`.
- Error message texts are kept as structure (`Wrapped(context, inner)`). Only iscsiadm's `output + ": " + cause` text is spelled out, because `isPresentErr` and `isNotSessionErr` search it.
- `Iscsi.ParseLines`: the Go index panic on a discovery line without a space is modelled as the error `IndexOutOfRange(line)`, not as a crash.
- bufio.Scanner's 64 KiB token limit is left out. So is its error check, because reading from a byte buffer cannot fail.
- `WithVolumeUnpack`, `WithVolumeRootfs` and `WithTargetLogout` are left out, because they are containerd hooks whose only logic is the modelled operations or field copies. `WithVolumeUnpack` copies the result of `Volume.Mounts`, and `WithTargetLogout` returns the error of `Target.Logout`; both operations are modelled. `WithVolumeRootfs` calls no modelled operation: it sets the container's snapshotter to the provider's ID and copies the snapshot key and the image name.
- The provider's mutex is left out, because calls are modelled one at a time.
- The test programs under `test/` are left out.
- Go's 64-bit `int` is unbounded here. LUNs, uids and gids are printed with no overflow.
- `MountOpts.MountOpt` is closed to the library's three steps. A caller's own `func(*[]string)` step is not modelled.
- `Iscsi.NewPortal`: the round trip is stated only for an IP and a port without square brackets, and a port without a colon. net.SplitHostPort refuses a bracket inside either part, even after JoinHostPort has added its own.
- Go's `[]byte` and `string` are both modelled as `seq<char>`, one character per byte. Every separator the code searches for (' ', '\n', '\r', '/', ':', '=', '[', ']') is ASCII, so byte-wise and character-wise search agree.
