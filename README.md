# Dell iDRAC log fetcher: the single-lease DHCP responder, in Dafny

The fetcher brings up network access to a Dell iDRAC that boots in DHCP mode on an
isolated link. The chosen interface supplies the server's address. A tiny DHCP server
listens on port 67 of every interface (it binds 0.0.0.0:67), and it
answers every DHCPDISCOVER with a DHCPOFFER and every DHCPREQUEST with a DHCPACK,
always for the same address: host .200 in the server's /24. The first DHCPREQUEST
also fills the shared lease record (`DhcpLease`). A waiter polls that record every
100 ms for up to 120 s and hands the leased address on. The fetcher then runs
`racadm` against the device to collect a SupportAssist (TSR) report.

This project models that responder and the helpers around it:

- `wrappers.dfy`: `Option`.
- `text.dfy`: the Rust string operations the code uses (`trim`, `usize::from_str`, integer `Display`, `contains`, `replace`).
- `net.dfy`: `Ipv4Addr`, `MacAddr` and its `Display`, and `get_lease_ip`.
- `dhcp.dfy`: decoded DHCP messages, the reply template of sections 4.3.1 and 4.3.2 of RFC 2131, and the per-datagram response.
  - The reply options are Message Type, IP Address Lease Time and Server Identifier (sections 9.6, 9.2 and 9.7 of RFC 2132).
- `lease.dfy`: the lease record as a value (`LeaseState`) and as the class `DhcpLease`.
  - `HandleMessage` is one pass of the server loop; `Serve` is the loop itself.
- `waiter.dfy`: `wait_for_lease`, with the clock replaced by a poll count.
- `interfaces.dfy`: the interface filter and the numbered prompt of `select_interface`.
- `credentials.dfy`: `get_credentials`.
- `racadm.dfy`: the `racadm` argument vector, the TSR file name and the job-queue test.
- `scenario.dfy`: one Discover/Request handshake, worked through.

A received datagram is `Option<Message>`; `None` is a datagram the decoder rejects.
A message carries the BOOTP fields the responder reads or writes and its options.
The options are a map from option code to option, which is how `DhcpOptions` stores them.

The code and the RFC differ in these places, and the model follows the code:

- Both replies copy `secs` from the request, while table 3 of RFC 2131 says a server sets it to 0.
- Both replies leave `giaddr` at 0.0.0.0 instead of copying it. On a link without relay agents the request's `giaddr` is 0.0.0.0 anyway.
- Every DHCPREQUEST gets a DHCPACK, whatever its Server Identifier or requested address. Section 4.3.2 of RFC 2131 says a server that the client did not select stays silent, and a server answers a wrong requested address with a DHCPNAK. `Dhcp.Respond` states this: its reply depends only on the message type.

When the server's own address ends in .200, `get_lease_ip` hands the device that same address.
`Net.GetLeaseIp` states this case in its contract.

The job-queue test looks for "Completed" anywhere in the listing, not on the SupportAssist job's own line.
A listing that names the SupportAssist job and has any other job completed therefore ends the wait while the collection is still running.
`Racadm.CompletedAnywhereEndsWait` states this.

## Model

| member | source | states |
|---|---|---|
| `Net.GetLeaseIp` | src/main.rs:316-320 | the lease address keeps the server's first three octets and has host octet 200; it equals the server address exactly when the server is host .200 |
| `Net.NewMac` | src/main.rs:24-26 | the address holds the six given bytes in order |
| `Net.Ipv4Text` | src/main.rs:136 | the dotted-decimal text has only digits and dots, and reading it back as four dot-separated decimal octets gives the same address |
| `Net.MacText` | src/main.rs:29-37 | the display is 17 characters: a ':' after every pair, and the high then low lower-case hex digit of each byte in order |
| `Net.MacTextRoundTrip` | src/main.rs:29-37 | parsing the displayed text gives back the same address |
| `Net.MacTextInjective` | src/main.rs:29-37 | two addresses with the same display are equal |
| `Net.DefaultMacText` | src/main.rs:39-43 | the default address is all zeros and displays as 00:00:00:00:00:00 |
| `Dhcp.ClientMac` | src/main.rs:187-190 | the client's MAC is the first six bytes of `chaddr` |
| `Dhcp.ServerReply` | src/main.rs:202-211 | a reply is a BOOTREPLY that echoes xid, secs, flags and chaddr and offers the lease address; it has zero ciaddr, siaddr and giaddr and exactly three options: the given message type, lease time 3600 and server identifier = server address |
| `Dhcp.OfferAckDifferOnlyInType` | src/main.rs:237-246 | the Ack to a request is the Offer with only its message-type option replaced |
| `Dhcp.BuildReply` | src/main.rs:202-211 | building a default message field by field and inserting the three options yields exactly `ServerReply` |
| `Dhcp.Respond` | src/main.rs:184-253 | a reply goes out exactly for a decoded Discover or Request; it is broadcast to port 68 and is the Offer for a Discover and the Ack for a Request |
| `Lease.NextLease` | src/main.rs:224-235 | one datagram keeps the record empty-or-complete; a leased record never changes; only a Request changes it; after a Request the record is leased |
| `Lease.LeaseAfterAllAllOrNothing` | src/main.rs:226-234 | any run of datagrams keeps the record empty or fully populated |
| `Lease.LeasedRecordIsFinal` | src/main.rs:226-234 | once leased, no run of later datagrams overwrites the record |
| `Lease.OnlyRequestsChangeLease` | src/main.rs:184-253 | Discovers, other or missing message types and undecodable datagrams leave the record unchanged |
| `Lease.LeaseFromFirstRequest` | src/main.rs:224-235 | from the empty record, the record holds the MAC of the first Request's chaddr, the lease address and is_leased |
| `Lease.LeasedIffRequested` | src/main.rs:224-235 | from the empty record, the record is leased exactly when some datagram is a Request, and then holds the lease address; otherwise it is still empty |
| `Lease.DhcpLease.constructor` | src/main.rs:52-57 | a new record has no MAC, no IP and is not leased |
| `Lease.DhcpLease.HandleMessage` | src/main.rs:184-253 | one datagram changes the record as `NextLease` says and sends what `Respond` says, keeping the record empty or complete |
| `Lease.DhcpLease.Serve` | src/main.rs:181-259 | the receive loop leaves the record as the datagrams handled in order make it and sends one reply per Discover or Request, in order |
| `Waiter.WaitForLease` | src/main.rs:322-348 | the loop, polling every 100 ms while less than 120 s have passed, returns the ip of the first record it finds leased, or None at the deadline (as `WaitOutcome` from poll 0) |
| `Waiter.WaitReturnsFirstLease` | src/main.rs:334-342 | the waiter returns the ip of the first polled record that is leased |
| `Waiter.WaitTimesOut` | src/main.rs:334-347 | if no poll before 120 s sees a leased record, the waiter returns None |
| `Waiter.WaitOutcomeLeased` | src/main.rs:334-347 | when every leased record holds the lease address, the waiter returns it exactly when some poll before the deadline finds the record leased, and None otherwise |
| `Waiter.ServedThenWaited` | src/main.rs:105-118 | with the responder handling datagrams while the waiter polls, the waiter returns the lease address exactly when a Request was handled before some poll within the deadline, and times out otherwise |
| `Interfaces.ValidInterfaces` | src/main.rs:277-290 | every interface kept is an eligible (non-loopback IPv4) input interface, converted, and every eligible input interface is kept |
| `Interfaces.ValidInterfacesAppend` | src/main.rs:277-290 | the filter works piecewise on any split of the list, so it keeps the original order |
| `Interfaces.ValidInterfacesSingle` | src/main.rs:279-289 | a single interface is kept, converted, exactly when it is not loopback and has an IPv4 address |
| `Interfaces.ParseSelection` | src/main.rs:307-311 | a line is accepted exactly when its trimmed text parses as a usize n with 1 <= n <= count, and then selects index n - 1 |
| `Interfaces.TypedNumberSelects` | src/main.rs:296-309 | typing the number the list shows for an interface, then Enter, selects that interface |
| `Interfaces.PromptChoosesFirstAccepted` | src/main.rs:300-313 | the prompt picks the interface named by the first accepted line when every earlier line was read and refused |
| `Interfaces.PromptKeepsAsking` | src/main.rs:300-313 | lines that are read but refused never end the prompt |
| `Interfaces.SelectInterface` | src/main.rs:263-314 | no interface when enumeration fails or none is eligible; otherwise the prompt's outcome, and a chosen interface is always one of the eligible ones |
| `Text.Trim` | src/main.rs:307 | trimming drops only whitespace, from both ends, and keeps a slice that neither starts nor ends with whitespace |
| `Text.Decimal` | src/main.rs:297 | the text is one or more ASCII digits with no leading zero, and reads back as n (with `Text.DecimalRoundTrip`) |
| `Text.ParseUsize` | src/main.rs:307 | a text parses exactly when it is an optional '+' then one or more digits whose value fits in 64 bits, and then gives that value |
| `Text.ParseDecimal` | src/main.rs:307 | every usize written in decimal parses back to itself |
| `Credentials.GetCredentials` | src/main.rs:350-372 | both results are non-empty; the username is the trimmed input, or "root" when that is blank, and has no surrounding whitespace; the password is the input as typed, or "Password@_" when it is empty or the read failed |
| `Racadm.BuildRacadmCommand` | src/main.rs:377-385 | the command is racadm with -r ip -u user -p pass followed by the given arguments, and the target, user, password and arguments can be read back from it |
| `Text.Replace` | src/main.rs:413 | replacing a character that does not occur changes nothing; replacing it by a one-character text keeps the length and changes exactly the positions that held it |
| `Racadm.TsrFilename` | src/main.rs:413 | the name is "TSR_", the address with each '.' turned into '-', "_", the timestamp and ".zip" |
| `Racadm.TsrFilenameOfIpv4` | src/main.rs:413 | for an IPv4 address's dotted-decimal text the name is "TSR_", the four decimal octets joined by '-', "_", the timestamp and ".zip" |
| `Text.Contains` | src/main.rs:453-456 | the text contains the pattern exactly when the pattern occurs at some position in it |
| `Racadm.JobQueueDecision` | src/main.rs:453-459 | the job is done exactly when the output names the SupportAssist job and "Completed"; the queue is empty exactly when it names neither that job nor "JID_"; polling goes on exactly in the remaining cases |
| `Racadm.CompletedAnywhereEndsWait` | src/main.rs:453-456 | any listing that names the SupportAssist job and has "Completed" after it counts as the job done, whichever job the word belongs to |
| `Racadm.PollJobQueue` | src/main.rs:437-471 | polling stops at the first query that failed to run or whose output settles the job, and goes on while none does |
| `Scenario.ScenarioLeaseIp` | src/main.rs:316-320 | `get_lease_ip` turns the server address 192.168.1.10 into the lease address 192.168.1.200 |
| `Scenario.Handshake` | src/main.rs:184-253 | for server 192.168.1.10, a Discover then a Request from aa:bb:cc:dd:ee:ff get an Offer (echoing the device's chaddr) and an Ack of 192.168.1.200, and the record ends up leased to that MAC and address |

## Left out

- UDP I/O is not modelled: binding port 67, enabling broadcast, the 1500-byte receive buffer, `recv_from` errors, and `send_to` errors that end the server with an error.
- `Serve` is given the datagrams that arrive before the shutdown signal. The `tokio::select!` race with `Notify` is not modelled, and neither is `Arc<Mutex<…>>` sharing. Each `HandleMessage` call stands for one critical section.
- `dhcproto` decoding and encoding are a foreign library, so a datagram is taken already decoded.
  - The BOOTP fields htype, hlen, hops, sname, file and the magic cookie are not modelled.
  - A panic of `encode(...).unwrap()` is not modelled.
  - `Message::default()` is taken to have zero addresses and no options.
- Waiter.WaitForLease: poll k is taken to happen exactly k × 100 ms after the start. The time spent in each poll is ignored, so the model always makes 1200 polls.
- Progress bars, coloured console output and all printing are left out.
- Stdout flush failures in `select_interface` (the `.ok()?` after `flush`) are left out.
- Interfaces.SelectInterface: the typed lines are a finite parameter. When they run out the outcome is `AwaitingInput`. At end of input, `read_line` keeps returning an empty line, which the source refuses over and over.
- `usize` is taken to be 64 bits wide.
- Whether an interface is loopback, and its addresses, come from `if_addrs` and are given as data. IPv6 addresses are kept opaque.
- Running `racadm` is not modelled: starting the process, its exit status, and decoding its output with `from_utf8_lossy`. The job-queue outputs are given as strings, with `None` for a query that could not be run.
- The order of the steps in `collect_tsr_log` and `main` is not modelled: starting the job, polling every 10 s, downloading, and the getsysinfo/getractime/getconfig calls. Only the argument vector, the file name and the poll test are modelled.
- Racadm.PollJobQueue: the source loop has no time limit. It polls forever while the listing names the SupportAssist job without "Completed", for instance when that job failed. The model takes a finite sequence of outputs and returns `None` when none of them stops the polling; that `None` stands for "still polling", not for a timeout.
- The server does not tell interfaces or clients apart. Any client on any link that reaches port 67 gets the offer, and its first DHCPREQUEST takes the single lease. The model has no notion of link or sender address, so it does not capture which device gets the lease.
- The `chrono` timestamp is a parameter of `TsrFilename`.
- `build.rs` only sets a linker search path on Windows; it has nothing to model.
