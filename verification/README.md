# Proofs about the k3s cluster pipeline

A Dafny model of the parts of the pipeline that compute something: the scanner that reads a
cluster root's `main.tf`, the writer of `output.json`, the commands that go through two remote
shells, the resumable bootstrap runner and its tunnel, the install phase, the kubeconfig
rewriter, the DNS reconcile loop, the `.env` loader, the service gateway and the log scrubber.
Networks, processes and files outside these are answers that a run is given: every theorem
holds for every such answer; the runner's process may also die in the middle of a step.

`dafny verify dfyconfig.toml` checks the whole project.

## How it is laid out

| module | what it models |
|---|---|
| `Text` | Python's string operations, with their inverses: split and join, lines, `int` and `str` of numbers |
| `Shell`, `RemoteInstall`, `SshCommand` | `shlex.quote`; token recognition and quote removal after sections 2.2 and 2.3 of POSIX.1-2017 XCU chapter 2; the install command; ssh's own reading of its arguments |
| `K3sPlan`, `ServiceGateway` | the install plans, the in-cluster gateway address |
| `HclScanner`, `HclFields`, `Topology` | the brace scanner, the field and count patterns, the resolved description and its nodes |
| `HclPieces`, `HclPatterns` | what the scanner makes of any text of code, strings and comments; what exactly each pattern and `int` take |
| `MainTf`, `MainTfScan`, `MainTfRoundTrip`, `MainTfMeaning` | a grammar of written `main.tf` files, in which attributes and blocks may be commented out anywhere on a line and comments may stand behind values, a printer for it, and what the resolver reads of the printed text |
| `MainTfExact`, `MainTfDisturbed` | when exactly that is what the file says, and a file for each way in which it is not |
| `OutputWriter` | `write_output_json` over any old file and any live data, over whole histories, and the reader of its file |
| `PhaseRun`, `Bootstrap`, `PhaseHistory` | the phase runner as a function, as a program with its state objects, and over histories of runs |
| `InstallPhase` | the install phase and the health tests |
| `Kubeconfig`, `DnsSync`, `EnvFile`, `LogScrub` | the smaller reconcilers and text pieces |

Where the code is imperative the model is too: the scanners and loops are methods with
invariants, and `ClusterDir`, `State`, `ForwardedPort`, `ConfigFile`, `Installer`, `DnsServer`
and `Process` are classes whose methods change their fields. Each method is tied to a function
of its inputs or of the state before it, and the properties are proved of that function.

## Where the code and its documentation differ

The model follows the code.

- `main.tf`: an attribute inside a nested block, or one that is commented out, replaces the
  module's own of the same needed name when it comes later, and is accepted where the module
  has none, although the docstring speaks of top-level literals; one with a comment behind its
  value is not read at all; and a `control_plane` or `workers` block that is commented out, or
  a count that is commented out inside one, gives the count when it comes first.
  `RoundTripExactly` says exactly when a file is read as what it says; `NestedKeyWins`,
  `CommentedKeyWins`, `NestedKeySuffices`, `NotedKeyLost`, `CommentedBlockCounts` and
  `CommentedCountWins` show a file for each way.
- `_parse_nested_count` is said to default to 1 for an unbalanced child. It takes the rest of
  the body but for its last character, and any count found there (`UnclosedBlockCounts`).
- `write_output_json` is called idempotent. Addresses are, but the whole file is final only
  after two writes: the first puts in live VM ids, the second, with all addresses known, puts
  the declared ones back. `WritesSettle` says, of the call's inputs, exactly when the first write is final,
  `FirstWriteNotFinal` shows a node for which it is not.
- The branch of `ssh_argv` and `port_forward` for the jump host itself puts the word `ssh` in
  twice, so ssh takes the second one as its destination, and `port_forward` passes no `-L`
  there (`LoginIsRead`, `ForwardIsRead`, `JumpHostMissed`).
- The guard on environment keys lets keys through that start with a digit; these are no shell
  names (`GuardAgainstNames`, `InstallCommandDelivered`).
- The PTR name is the one of section 3.5 of RFC 1035 for the zone `in-addr.arpa.` only; the
  default zone `10.in-addr.arpa.` repeats the leading octet, unlike the docstring's example
  (`RfcNameExactly`).
- The docstring of the log module says that secrets are replaced by `[REDACTED]`; they are
  dropped. It says recursively; tuples are not entered (`SecretFreeExactly`, `TupleKeepsToken`).
- Helm and the installer derive different gateways from a service block given as an empty text
  (`DerivationsAgreeExactly`).
- A retry in which only `externalname` is left has no tunnel, although its kubeconfig names the
  port of one (`ExternalnameTunnel`, `RetryHasNoTunnel`).
- A tunnel that is reused is called live, but nothing looks at its process, which ssh ends by
  itself when the server stops answering (`TunnelPoints`).
- Requests by `--phases` may leave gaps on disk; `PrefixSafeExactly` says which.

## Model

| member | source | states |
|---|---|---|
| Shell.RunQuote | tools/lib/pve_ssh.py:124-136 | From any reader state outside quotes and between words, a quoted text is read as one word, exactly the text, whatever quotes, blanks and newlines it holds |
| Shell.RunConcat | tools/lib/k3s_installer.py:620-651 | Reading a concatenation is reading its parts one after the other; None for anything that calls for more than splitting |
| Shell.SplitQuoteJoin | tools/lib/pve_ssh.py:124-136 | Splitting the blank-joined quoted tokens gives back exactly the token list, for every list |
| Shell.QuoteJoinInjective | tools/lib/pve_ssh.py:124-136 | Two different token lists never give the same command string |
| Shell.BareExactly | tools/lib/pve_ssh.py:126 | A token is left bare if and only if it is not empty and made of letters, digits and `@%+=:,./-_` |
| RemoteInstall.UpstreamCommand | tools/lib/k3s_installer.py:617-651 | Refuses exactly when the guard refuses some key, naming the first one; otherwise the text is the quoted script under `sudo -n bash -c` |
| RemoteInstall.RootShellReceives | tools/lib/k3s_installer.py:651 | The outer shell reads exactly five words, the fifth being the script unchanged, for every script |
| RemoteInstall.InstallCommandDelivered | tools/lib/k3s_installer.py:620-651 | Through both shells the script exports exactly the environment, in order and with values unchanged, and runs the installer with exactly the flags, if and only if every key is a shell name |
| RemoteInstall.GuardAgainstNames | tools/lib/k3s_installer.py:622-631 | Among the keys the guard allows, those that are no shell names are exactly the ones that start with a digit, and there are such |
| RemoteInstall.GuardExactly | tools/lib/k3s_installer.py:622 | The guard, which drops underscores and asks `isalnum` of the rest, lets through exactly the keys of letters, digits and underscores that are not only underscores |
| RemoteInstall.InstallCommandInjective | tools/lib/k3s_installer.py:620-651 | Different environments or flag lists never give the same remote command, for all keys the guard lets through |
| SshCommand.LoginIsRead | tools/lib/pve_ssh.py:92-137 | What ssh makes of the argv: the user at the target behind a ProxyCommand that is ssh with the words of the jump host and `-W %h:%p`, with three settings written out and the command intact; for the jump host itself a destination `ssh` with all else as the command |
| SshCommand.JumpHostExactly | tools/lib/pve_ssh.py:259-264 | A target is the jump host if and only if its host is, whatever user stands before it and whatever port behind it |
| SshCommand.WordsSurviveLogin | tools/lib/pve_ssh.py:124-136 | The login shell splits what ssh sends into exactly the given words, and the local shell splits the ProxyCommand into exactly the proxy words |
| SshCommand.JumpHostMissed | tools/lib/pve_ssh.py:112-115 | For the documented jump host setting and that host as the target, ssh takes the word `ssh` for its destination |
| SshCommand.LineSurvivesLogin | tools/lib/pve_ssh.py:131-134 | A command given as one text reaches the login shell unchanged |
| SshCommand.InstallOverSsh | tools/lib/k3s_installer.py:617-652 | Sent by ssh to a machine behind the jump host and read by both shells there, the install command is exactly the exports and the pipeline it was made of, if and only if all keys are shell names |
| SshCommand.ForwardIsRead | tools/lib/pve_ssh.py:192-240 | What ssh makes of the forwarding argv: target, proxy, six settings written out, forwarding only, and the one forward from the local port to the bound address and port; for the jump host itself a destination `ssh` and no forward |
| K3sPlan.ServerReceives | tools/lib/k3s_installer.py:215-313 | Through both shells the install script of a server has exactly the three exports, each under its own key, the server role, and exactly fifteen options written out in order, among them its own address four times, the gateway of its service block, its pod block as `--cluster-cidr`, its service block as `--service-cidr` and its DNS address; each value is the machine's own, else the cluster's, else the default |
| K3sPlan.ServerCertifiesGateway | tools/lib/k3s_installer.py:263-294 | For an aligned service block of prefix length at most 24 the certificate is also made for the address behind the network address |
| K3sPlan.PhaseServerReceives | tools/bootstrap_cluster.py:274-349 | In the install phase the cluster's three blocks, or the default where one is empty, arrive at every control plane under the options of their names, with its own node name and address |
| K3sPlan.AgentReceives | tools/lib/k3s_installer.py:315-384 | An agent is planned if and only if there are a token and an address to join on; it gets exactly five exports, each under its own key, with the address in its URL and the token as it was read, and no option but its two addresses |
| K3sPlan.JoinAddressIsCertified | tools/lib/k3s_installer.py:279-366 | The address an agent is told to join is among the certificate names of the server with that address |
| K3sPlan.PhaseJoinAddress | tools/bootstrap_cluster.py:274-318 | The planner's search over the dict the install phase builds finds the first control plane's address, or that of the first one with a name and an address |
| K3sPlan.PhaseAgentsJoinServer | tools/bootstrap_cluster.py:274-373 | Whenever the phase finds a join address, it is that of one of the control planes; every agent's commands name it, that server's certificate covers it, and the token and the agent's own name and address arrive, all through two shells |
| K3sPlan.FindJoinAddress | tools/lib/k3s_installer.py:347-352 | The search stops at the first member with the control-plane role; none before it has the role |
| ServiceGateway.GatewayOfBlock | tools/lib/k3s_installer.py:268 | For every aligned block of section 3.1 of RFC 4632, of any prefix length: the gateway is the network address plus one exactly when that ends in zero, and lies in the block exactly in the stated cases |
| ServiceGateway.GatewayIsNetworkPlusOne | tools/lib/k3s_installer.py:263-268 | For prefix lengths up to 24 the gateway is the network address plus one and lies in the block |
| ServiceGateway.DerivationsAgreeExactly | tools/lib/helm_client.py:196-199 | Installer and helm derive the same address from one service block if and only if it is not given as an empty text |
| ServiceGateway.HelmHost | tools/lib/helm_client.py:196-199 | The address handed to the first releases is that of the control plane where it is known; else, for an aligned block up to prefix length 24, the network address plus one, and 172.17.0.1 for the default block |
| ServiceGateway.OctetsDenote | tools/lib/k3s_installer.py:263-268 | The dotted text of an address has four numbers below 256, and they stand for the address |
| HclScanner.ScanBody | tools/lib/cluster_topology_writer.py:89-109 | The loop stops right behind the first position at which declared depth is zero, and returns None only if depth stays positive to the end of the text |
| HclScanner.ExtractModuleBody | tools/lib/cluster_topology_writer.py:70-110 | Computes the declared body of the module of that name |
| HclScanner.BodyExact | tools/lib/cluster_topology_writer.py:85-110 | The body is the text from the header's brace to the first position where depth, counted over braces outside strings and column-0 comments, is zero; there is none exactly when there is no header or no such position |
| HclPieces.BodyOfPieces | tools/lib/cluster_topology_writer.py:85-110 | For every text of code, braces, strings and column-0 comments whose braces close, the body is exactly what is written up to the closing brace: braces in strings and comments do not count, nor do quotes in comments or behind a backslash in strings |
| HclPieces.NoBodyOfPieces | tools/lib/cluster_topology_writer.py:85-110 | There is no body when such a text ends before its brace is closed |
| HclPatterns.HeaderExactly | tools/lib/cluster_topology_writer.py:78-83 | A header is the whole word `module`, space, the quoted key, perhaps space, and a brace |
| HclPatterns.HeaderFirst | tools/lib/cluster_topology_writer.py:82 | The first header with the key is the one found |
| HclPatterns.AssignExactly | tools/lib/cluster_topology_writer.py:120-174 | The common head of the field patterns takes exactly a whole word, perhaps space, an equals sign, and all the space behind it |
| HclPatterns.SearchExactly | tools/lib/cluster_topology_writer.py:120-174 | The search finds the first assignment at the start of a word that the rest of the pattern takes |
| HclPatterns.LiteralExactly | tools/lib/cluster_topology_writer.py:120 | A literal is a quoted text without quotes or a whole run of digits |
| HclPatterns.FieldExactly | tools/lib/cluster_topology_writer.py:120-125 | A field is an identifier with a literal and nothing but space to the end of its line; the match ends behind the last newline of that space |
| HclPatterns.ModuleKeyExactly | tools/lib/cluster_topology_writer.py:136-148 | The key is that of the first module in which the cluster's source stands before any closing brace, or the default if there is none |
| HclPatterns.NumberExactly | tools/lib/cluster_topology_writer.py:204 | `int` reads exactly groups of digits with single underscores between them, perhaps a sign in front and space around, as the number the digits spell |
| HclFields.CollectFields | tools/lib/cluster_topology_writer.py:119-126 | The loop over the matches collects exactly the matches from left to right without overlap |
| HclFields.ParseLiteralBlock | tools/lib/cluster_topology_writer.py:113-126 | The literals of the declared body, none where there is no body |
| HclFields.ScanChild | tools/lib/cluster_topology_writer.py:163-172 | The nested scan takes the text up to the brace that matches, or all but the last character when depth never comes to zero, and says which |
| HclFields.NestedCountCloses | tools/lib/cluster_topology_writer.py:151-176 | When no brace of the body stands in a string or a comment, the nested scan for a child that is found starts behind its opening brace, ends at the matching brace inside the body, and the count is the one in exactly the text between them |
| HclFields.NestedScanCloses | tools/lib/cluster_topology_writer.py:151-176 | Under the same condition every opening brace of the body has its match inside the body, with depth above in between |
| HclFields.ParseNestedCount | tools/lib/cluster_topology_writer.py:151-176 | Computes the count of the first block of that name, 1 where block or count is absent |
| HclFields.CountDefaults | tools/lib/cluster_topology_writer.py:157-175 | The count is 1 where there is no body, no such child in it, or no count in the child |
| Topology.Resolve | tools/lib/cluster_topology_writer.py:179-235 | Computes the description the text stands for, with the first missing field or the unreadable number as the error |
| Topology.BuildNodes | tools/lib/cluster_topology_writer.py:209-223 | The two loops build the declared node list |
| Topology.ResolvedDescribes | tools/lib/cluster_topology_writer.py:186-235 | Of any text that is resolved, each of the five settings is the last value of its own name among the fields of the cluster module, the counts are the two nested ones, and node names and VM ids count on from the last `vmid_start` |
| Topology.ResolvedFails | tools/lib/cluster_topology_writer.py:183-204 | Any text that is not resolved fails with the first of six names, in this order, that no field of the cluster module has, or with a last `vmid_start` that is no number |
| Topology.DeclaredNodesShape | tools/lib/cluster_topology_writer.py:209-223 | Declared VM ids are the interval from `vmid_start`, in order and without repeats; roles come in order; names are the cluster name with `-cp-` or `-w-` and a number from one on, and all distinct |
| Topology.ToIntOfDec | tools/lib/cluster_topology_writer.py:204 | `int` of a printed number is the number |
| MainTfScan.BodyExtracted | tools/lib/cluster_topology_writer.py:70-110 | The scanner finds exactly the printed body of every description, past comments, strings and blocks |
| MainTfMeaning.FieldsOfBody | tools/lib/cluster_topology_writer.py:113-126 | The field pattern finds exactly the literals of a printed body with nothing but blanks behind them, in order, those in blocks and those commented out included |
| MainTfMeaning.CountRead | tools/lib/cluster_topology_writer.py:151-176 | The nested count read from a printed body is the first count of the first block of that name, either of them commented out or not |
| MainTfMeaning.CommentedOpeningIsTaken | tools/lib/cluster_topology_writer.py:160 | The child search stops at a commented opening line of the child, wherever the comment begins and whatever text follows |
| MainTfMeaning.KeyFound | tools/lib/cluster_topology_writer.py:136-148 | The module with the cluster's source is found by its own key, whatever the cluster is called |
| MainTfMeaning.RenderResolved | tools/lib/cluster_topology_writer.py:179-235 | Resolving any printed description gives what all its literals with nothing behind them and the first counts of the first blocks stand for |
| MainTfExact.RoundTrip | tools/lib/cluster_topology_writer.py:179-235 | Printing any description in which needed names stand only where the module has them, without a comment behind the value, and no needed count is commented out, and resolving it gives exactly what it says: fields, counts, nodes, and the error where something is missing or unreadable |
| MainTfExact.RoundTripExactly | tools/lib/cluster_topology_writer.py:113-235 | For every written description, complete or not, the round trip holds if and only if no block and no comment disturbs it: no needed value is lost or overridden, no count hidden, no missing field brought, no unreadable number replaced |
| MainTfExact.RoundTripSays | tools/lib/cluster_topology_writer.py:179-235 | Of every complete description that nothing disturbs, each setting that is resolved is the module's own last literal of that name, the counts are those of its live blocks, and the nodes count on from its own `vmid_start` |
| MainTfDisturbed.NestedKeyWins | tools/lib/cluster_topology_writer.py:119-126 | A file with `pod_cidr` "a", and "b" in a block behind it, says "a" and is read as "b" |
| MainTfDisturbed.CommentedKeyWins | tools/lib/cluster_topology_writer.py:119-126 | A file with `pod_cidr` "a", and "b" commented out behind it in any column, says "a" and is read as "b" |
| MainTfDisturbed.NotedKeyLost | tools/lib/cluster_topology_writer.py:119-126 | A file with `pod_cidr = "a" # was b` says "a" and is read as lacking the field |
| MainTfDisturbed.CommentedBlockCounts | tools/lib/cluster_topology_writer.py:160-176 | A file with a `workers` block of three commented out in any column says one worker and is read as three |
| MainTfDisturbed.CommentedCountWins | tools/lib/cluster_topology_writer.py:160-176 | A file with a live `workers` block of one, and a count of three commented out in it before, says one worker and is read as three |
| MainTfDisturbed.UnclosedBlockCounts | tools/lib/cluster_topology_writer.py:151-176 | In a whole file whose column-0 comment opens a `workers` block that nothing closes, the count behind it is taken |
| MainTfDisturbed.NestedKeySuffices | tools/lib/cluster_topology_writer.py:191-203 | A file whose only `pod_cidr` is in a block lacks the field and is resolved all the same |
| OutputWriter.ClusterDir.WriteOutputJson | tools/lib/cluster_topology_writer.py:328-397 | On success the file is the merge of declared, previous and live data; on every failure it is as it was |
| OutputWriter.ClusterDir.CarriedOver | tools/lib/cluster_topology_writer.py:351-360 | The carried-over addresses: the last one of each name, none at all after a nameless entry, none by force |
| OutputWriter.SettleNodes | tools/lib/cluster_topology_writer.py:376-393 | The in-place loop settles each node as declared, previous and live data say, independently of the others |
| OutputWriter.WriteGives | tools/lib/cluster_topology_writer.py:348-397 | A write keeps the settings of the description and gives each declared node the address of the last old entry with its name, with the declared VM id; or, by force or where there is none, the VM id of the last live machine with its name and an id, else the declared one, and the first of the addresses under that id, else none |
| OutputWriter.WriteFails | tools/lib/cluster_topology_writer.py:348-368 | It fails exactly with the resolver's error, on an old file of another shape that is looked at, or on a live system out of reach that is needed |
| OutputWriter.ForceStartsOver | tools/lib/cluster_topology_writer.py:351-393 | A forced write is that of an unforced one with no file there, whatever the old file holds, if and only if not both the description has no nodes and the live system is out of reach |
| OutputWriter.ForceMattersExactly | tools/lib/cluster_topology_writer.py:351-393 | Forced and unforced writes agree if and only if every node whose address the old file knows lives under its declared VM id with that address first |
| OutputWriter.WritesSettle | tools/lib/cluster_topology_writer.py:348-397 | Roles, names and addresses are final after one write and the whole file after two; the first write is final if and only if, of every declared node, the old file knows the address, or it lives under the declared VM id, or the live data have no address for it |
| OutputWriter.FirstWriteNotFinal | tools/lib/cluster_topology_writer.py:376-393 | A node declared as VM 210 that lives as VM 114 is written with 114 first and with 210 from then on |
| OutputWriter.WritesReachFixpoint | tools/lib/cluster_topology_writer.py:348-397 | The same, with the same exact condition, for whole calls over an unchanged `main.tf` and unchanged live data |
| OutputWriter.AddressNeverLost | tools/lib/cluster_topology_writer.py:348-397 | Over every history of unforced writes, with `main.tf` and live data changing at will, a known address of a node that stays declared never changes |
| OutputWriter.SplitByRoleIsIdentity | tools/lib/cluster_topology.py:42-64 | Splitting a node list by role and joining it again gives it back if and only if it lists control planes, then workers, and nothing else |
| OutputWriter.ReadBack | tools/lib/cluster_topology.py:42-64 | Reading a written file gives all written nodes in order, with role, name, VM id and address, the counts, and the written settings |
| OutputWriter.ReadExactly | tools/lib/cluster_topology.py:42-64 | Any file is read if and only if it has a list of objects and a name; absent settings have their three defaults, and the nodes of each role are all of that role, in order |
| Kubeconfig.RewriteServerUrl | tools/kubeconfig_puller.py:235-266 | The puller's loop computes the rewrite |
| Kubeconfig.ConfigFile.WriteRewritten | tools/lib/kubeconfig_merger.py:92-133 | The merger's own loop computes the same rewrite, and writes nothing unless the text looks like a kubeconfig and has a server line |
| Kubeconfig.RewriteExact | tools/kubeconfig_puller.py:251-266 | It fails exactly when no line starts, behind its margin, with `server:`; otherwise exactly the first such line changes, to its margin and `server: https://127.0.0.1:` with the port, the number of lines stays, and each ends in a newline |
| Kubeconfig.PointsAtExactly | tools/kubeconfig_puller.py:251-266 | A text points at a port if and only if its first server line is, behind the margin, the local address with that port; a text rewritten for a port does |
| Kubeconfig.RewriteTwice | tools/kubeconfig_puller.py:251-266 | Rewriting for one port and then another is rewriting for the other |
| Kubeconfig.PointsAtOnePort | tools/kubeconfig_puller.py:251-266 | A kubeconfig points at one port only |
| PhaseRun.TunnelPoints | tools/bootstrap_cluster.py:429-484 | After the tunnel is open, the kubeconfig on disk names the port of the forward held, an earlier forward is reused, never more than one is returned, and a process is behind that port if and only if the forward was opened just now or the earlier process is still there |
| PhaseRun.TryKeeps | tools/bootstrap_cluster.py:1696-1726 | One attempt adds its own phase to the disk exactly when it went through, was marked and saved; the one unmarked success is `externalname` without a manifest; a forward held is kept, with its process if that is still there |
| PhaseRun.TryEnds | tools/bootstrap_cluster.py:1532-1726 | An attempt ends with the first answer that is a failure, in the order checks, forward, fetch, second fetch, work, save; it is logged as saved, and its phase put on disk, if and only if all went and it was not `externalname` without a manifest |
| PhaseRun.TryLeaves | tools/bootstrap_cluster.py:429-484 | An attempt of a phase that uses the tunnel leaves, when it went through, the forward it found or else the one it was given, and the kubeconfig fetched last, rewritten for it; any other leaves both as they were |
| PhaseRun.RequestOfOne | tools/bootstrap_cluster.py:197-204 | Without names all ten phases are requested, in this order; of one name outer blanks do not count, and a blank one requests nothing |
| PhaseRun.RequestRead | tools/bootstrap_cluster.py:197-204 | A request is read name by name; one unknown name refuses it, and the error lists all of them in order |
| PhaseRun.LoopKeeps | tools/bootstrap_cluster.py:1696-1740 | At every exit of the loop at most one forward was returned, the disk only grew, and after a normal one memory, disk, forward and kubeconfig agree |
| PhaseRun.LoopTunnel | tools/bootstrap_cluster.py:1696-1740 | At a phase that opens no tunnel, a forward is held if and only if an earlier requested phase of the run that was not done opened it |
| Bootstrap.State.Bootstrap | tools/bootstrap_cluster.py:1656-1740 | The program does what the run function says; at most one forward is returned, and unless the runner itself dies every one returned is ended and none is held; a process that is still there is stopped, and killed if it does not obey, and one that has ended is left alone |
| Bootstrap.State.OpenApiserverTunnel | tools/bootstrap_cluster.py:429-484 | The method on the state objects does what the tunnel function says: a forward that is held is reused whether or not its process is there, and what is opened is owned |
| Bootstrap.State.RunPhases | tools/bootstrap_cluster.py:1696-1726 | The loop with its skips, marks and saves computes the loop function |
| PhaseHistory.HistoryResumes | tools/bootstrap_cluster.py:181-191 | Over all histories of runs, failures and deaths, for arbitrary requests: persisted are exactly the phases that were and those that had an attempt in which checks, tunnel, work and save all went; no persisted phase is attempted, and a phase runs again only if no earlier attempt of it was like that |
| PhaseHistory.HistoryHappened | tools/bootstrap_cluster.py:1696-1726 | Every attempt of a history is one of a run of it: of the phase requested at its place, with the answers of that run's world there |
| PhaseHistory.RunAttempts | tools/bootstrap_cluster.py:1656-1740 | The attempts of a run come in the order of the request, each finds the forward that the one before held, the first none, and the run goes on exactly until one fails; a request that is refused and a failure before the loop leave everything |
| PhaseHistory.ReturnMeansDone | tools/bootstrap_cluster.py:1656-1740 | A normal return leaves every requested phase persisted, but for `externalname` without a manifest, and a run that is cut short those before the one it failed in |
| PhaseHistory.ExternalnameTunnel | tools/bootstrap_cluster.py:1565-1626 | When `externalname` runs, a forward is held if and only if one of the five phases that open one was requested earlier in the same run and not yet persisted |
| PhaseHistory.RetryHasNoTunnel | tools/bootstrap_cluster.py:1565-1626 | The default request over a store with all phases but `externalname` attempts that one alone, without a forward |
| PhaseHistory.TunnelProcess | tools/bootstrap_cluster.py:452-484 | A forward that is held was opened by one attempt of the run and reused since, and its process is there if and only if it was at every attempt after that one |
| PhaseHistory.HistoryKeepsPrefix | tools/bootstrap_cluster.py:132-143 | If every run requests the default list or an initial part of it, the persisted set is an initial part of the phase list after every history |
| PhaseHistory.OrderInEveryState | tools/bootstrap_cluster.py:132-143 | Hence in every reachable state no phase of the ten, listed in order, is persisted without all those before it, and nothing else is |
| PhaseHistory.PrefixSafeExactly | tools/bootstrap_cluster.py:197-204 | For arbitrary requests every run leaves an initial part, whatever happens, if and only if no request skips ahead of what is done |
| InstallPhase.Installer.RunInstallK3s | tools/bootstrap_cluster.py:256-378 | The program on the installer's state computes the phase function, failures included |
| InstallPhase.HealthyExactly | tools/lib/k3s_installer.py:473-536 | The health test is passed if and only if the machine is in reach, the unit of its kind is active, a server has its kubeconfig, and the first version in its output, if there is one, is the pinned one |
| InstallPhase.FindVersionExactly | tools/lib/k3s_installer.py:523-526 | The version found is the one at the first place where `v`, three numbers with dots and `+k3s` with a number stand, with all the digits of the last |
| InstallPhase.PhaseConverges | tools/bootstrap_cluster.py:334-378 | A normal return leaves every server and agent healthy by the code's own test, which is spelled out: in reach, with the unit of its kind active, a server with its kubeconfig, and no other version shown first than the pinned one |
| InstallPhase.ErrorKeepsEarlier | tools/bootstrap_cluster.py:334-378 | An error leaves the machines before it healthy, the failing one's own address aside, and says why: the installer failed on that machine just now, the token could not be read or is blank, or no control plane has an address to join on |
| InstallPhase.TokenBeforeAgents | tools/bootstrap_cluster.py:358-373 | No agent is installed before the token is read, whatever the upstream installer does |
| InstallPhase.NothingToDo | tools/lib/k3s_installer.py:388-429 | A run that returns normally invokes no installer if and only if every machine was healthy before, and then changes nothing, whatever the upstream installer does |
| InstallPhase.SecondRunIsIdle | tools/lib/k3s_installer.py:388-429 | A second run over the machines a successful one left invokes no installer |
| DnsSync.ReversalIsInvolution | scripts/sync_dns_to_sdn.py:224-229 | Reversing the octets twice gives the address back |
| DnsSync.ReverseNameInjective | scripts/sync_dns_to_sdn.py:224-229 | Within one zone, different addresses have different PTR names |
| DnsSync.RfcNameExactly | scripts/sync_dns_to_sdn.py:224-229 | The PTR name is the one of section 3.5 of RFC 1035 if and only if the zone is `in-addr.arpa.` |
| DnsSync.DnsServer.Run | scripts/sync_dns_to_sdn.py:290-397 | Exit codes 2 and 3 leave all records; otherwise records and code are those of the reconcile function; after exit 0 the address that each VM id's machine gave is the A record of its own name in the forward zone, and that name the PTR record of the address read backwards in the reverse zone, if and only if equal names went with equal addresses and the other way round |
| DnsSync.RunPublishes | scripts/sync_dns_to_sdn.py:323-397 | The same of the reconcile function, for all VM ids and names, with both keys written out |
| DnsSync.EndsBecause | scripts/sync_dns_to_sdn.py:340-397 | The loop ends with 4 where the machine gave no address, with 1 where that has not four parts, with 5 where an update did not come back as applied, and all targets before had both applied |
| DnsSync.SyncedExactly | scripts/sync_dns_to_sdn.py:340-397 | After exit 0 every target's A record is the queried address and its PTR record its name, if and only if equal names went with equal addresses and the other way round |
| DnsSync.SyncLeaves | scripts/sync_dns_to_sdn.py:340-397 | Wherever the loop stops, if equal names went with equal addresses and the other way round, earlier targets are synced and the target it stops at has none of its updates, the A record, or both with the last answer lost |
| DnsSync.AbortKeepsEarlier | scripts/sync_dns_to_sdn.py:340-397 | Under the same condition the half-done updates of the target it stops at do not spoil earlier targets |
| DnsSync.OthersUntouched | scripts/sync_dns_to_sdn.py:179-198 | Records of later targets and of no target are never touched |
| EnvFile.Process.LoadEnvFile | scripts/apply_tofu.py:81-107 | The loop computes the load; a missing file changes nothing |
| Text.LineEndsAt | scripts/apply_tofu.py:93 | `splitlines` ends a line at any of ten characters, carriage return and newline together being one end, and what is left behind the last end is a line if it is not empty |
| EnvFile.LoadMeans | scripts/apply_tofu.py:93-105 | For every text that loads: a key that was set keeps its value, any other ends with its first value in the file, and nothing else appears |
| EnvFile.LoadsExactly | scripts/apply_tofu.py:93-105 | A load goes through if and only if, of every key not set yet, the first value in the file is one the system takes; then it counts each assignment |
| EnvFile.AssignmentExactly | scripts/apply_tofu.py:94-103 | A line assigns what is around its first `=`, without outer space, and without quotes of either kind when both ends have one |
| EnvFile.NoAssignmentExactly | scripts/apply_tofu.py:94-98 | A line assigns nothing exactly if it is blank, a comment, or has no `=` |
| EnvFile.LineRead | scripts/apply_tofu.py:93-103 | A line `KEY='VALUE'` makes exactly that assignment, whatever quotes and outer blanks the value holds; blank lines, comments and lines without `=` make none |
| EnvFile.WrittenFileLoads | scripts/apply_tofu.py:93-105 | A whole written file loads completely, counts its assignments, and gives every key its earlier value or else its first written one, to the letter |
| LogScrub.ScrubValue | tools/lib/log.py:30-48 | The recursion with its item-by-item copies computes the scrub |
| LogScrub.RedactedExactly | tools/lib/log.py:27-44 | A key is dropped if and only if one of the five words is spelt somewhere in it, in small or capital letters |
| LogScrub.ScrubbedAt | tools/lib/log.py:30-48 | A path survives if and only if no key on the part that is walked holds a redact word; its end keeps its place and, if a scalar, its text |
| LogScrub.SecretFreeExactly | tools/lib/log.py:30-48 | No key at any depth of the result holds a redact word if and only if no tuple that the scrubber comes to holds one |
| LogScrub.ScrubLeavesNoSecret | tools/lib/log.py:30-48 | Without tuples no key at any depth of the result holds a redact word |
| LogScrub.TupleKeepsToken | tools/lib/log.py:46-48 | A dict inside a tuple keeps its token |
| LogScrub.ScrubTwice | tools/lib/log.py:30-48 | Scrubbing again changes nothing |

## Left out

- Unicode classes: `\w`, `\d`, `isalnum` and `lower` are modelled for ASCII; `isspace` and line breaks for all of Unicode.
- Python's limit of 4300 digits on `int(text)`.
- Regular expressions in general: each fixed pattern is a matcher of its own.
- The printed grammar of `main.tf` is narrower than HCL, though both cluster roots of the repository keep to it: no blocks inside blocks; no braces, `=` or backslashes in values and expressions, no quotes in string values; expressions start neither with a digit, a blank nor a quote and end every string they begin; blanks, not tabs, for indentation and alignment; nothing behind the braces of a block. A comment behind a value stands after a blank and has no `=`; a comment line holds one assignment or block line, perhaps after some words, or no `=`; comments hold no backslash and end every string they begin, but for those in column 0 without `=`, and no braces in a block.
- Indented comments that hold braces or an odd number of quotes, and strings that end in an escaped backslash, are read by the scanner in its own way, which `BodyExact` states for every text; the round trip leaves them out.
- JSON and YAML: dumping and then loading is the identity on the records modelled; `vnet_bridge` and the counts, which no reader uses, are not part of the file as read.
- How the live answers of Proxmox are gathered and filtered; the writer's merge is proved for any answer.
- Parts of a `write_output_json` failure that come after the merge (the file is written in one step), and a truncated or unreadable `bootstrap_state.json`.
- The bodies of the smoke, helm, CRD, host-port and cloud-init phases: each may fail, raise or die, or mark itself done.
- A forward that is left behind when waiting for it to become ready raises; an exception while a forward is being terminated. An ssh process that ends by itself in the middle of an attempt counts as gone from the next attempt on.
- Interrupts from the keyboard count as exceptions; the death of the process is its own case and skips the teardown.
- InstallPhase.PhaseConverges: takes it as given that the upstream installer keeps its word when it returns 0, and that a machine's answers stay the same between the probes of one step.
- RemoteInstall.InstallCommandDelivered: the install URL, which the code does not quote, must be a literal shell word; `InstallCommandInjective`, `InstallOverSsh`, `ServerReceives` and the other results on top of it inherit this.
- Shell expansions, globs, comments and operators other than the pipe: the reader answers None for them, so no theorem depends on what they would do. NUL characters in arguments are not excluded.
- ssh: its expansion of `%h` and `%p`, options other than the ones the code passes, and the network. SshCommand.LoginIsRead: needs a jump host that starts with the host word, as documented.
- `_merge_into_default` with its backup and replace of the user's own kubeconfig.
- DnsSync.SyncedExactly: equal names with different addresses in one run overwrite each other; the condition says exactly that.
- Timeouts, time to live of records, file modes, console and log output.
- `pve_client.py`, `build_image`, `host_ports.py`, `repo_locator.py`, `secret_loader.py`, `versions.py`, `tools/ssh_proxy.py`, the OpenTofu files and argument parsing.
