# nmap2csv: a verified model of NmapXMLParser

nmap2csv reads Nmap XML scan reports and writes two CSV tables: one row per
host and one row per service. Its core is the Ruby class `NmapXMLParser`.
A parser starts with two empty result lists, `host_results` and
`service_results`. Each call of `parse` walks one report's `host` elements in
document order. For each host it appends one host row (IP-Address, Hostname,
Mac, Mac-Vendor, OS). Then, for each `port` of that host that has a `service`
child, it appends one service row. A service row holds the host's values, the
port's id, protocol and state, the service name (or `N/A`), the tunnel, the
HTTP title and an Info string.

This project models that class in Dafny. The input is an already-parsed
report: the `NmapReport` datatypes give every XML attribute as an optional
string and every repeated child as a sequence in document order.

The project is split into these modules:

- `Optional` (option.dfy): the `Option` type.
- `RubyString` (ruby_string.dfy): the Ruby string operations the parser
  relies on.
  - `String#strip`, as `Strip`.
  - `Array#join(' ')`, as `JoinSpace`.
  - `String#to_i`, as `ToI`.
- `NmapReport` (nmap_report.dfy): addresses, scripts, services, ports, hosts
  and the document.
- `Projection` (projection.dfy): the per-field rules.
  - The first-match rule of `at_xpath(...)&.value`.
  - The confidence threshold that picks the service name.
  - The `compact.reject(&:empty?).join(' ').strip` Info pipeline.
- `Rows` (rows.dfy): the two row types, plus `HostRows` and `ServiceRows`.
  These give the rows one `parse` call appends for a report.
- `SeqFacts` (seq_facts.dfy): generic sequence lemmas used by the proofs.
- `Parser` (parser.dfy): the class `NmapXMLParser`.
  - It has the two sequence fields, a constructor and `Parse`.
  - `Parse` has the nested host and port loops of the Ruby method.
  - Its postcondition says each call appends `HostRows(doc.hosts)` and
    `ServiceRows(doc.hosts)` to what was there before.

Behaviour of the code worth stating explicitly, all of which the model keeps:

- A port without a `service` child produces no service row: `parse` skips
  it with `next unless service_node` (nmap2csv.rb:38-39).
- A service confidence below 5 does not drop the row; only the row's Service
  column becomes `N/A` (nmap2csv.rb:49).
- Rows are never deduplicated: nothing in `parse` compares rows, so the same
  host parsed twice gives its rows twice (`Rows.DuplicatesAreKept`).
- The code has no vulnerability-link, cpe or OS service-pack columns.
- The HTTP title is looked up among the port's own `script` children
  (nmap2csv.rb:52).
- Hosts and ports are taken in document order, unsorted (nmap2csv.rb:18, 33).

## Model

| member | source | states |
|---|---|---|
| Parser.NmapXMLParser.constructor | nmap2csv.rb:10-13 | a new parser has no host rows and no service rows |
| Parser.NmapXMLParser.Parse | nmap2csv.rb:18-59 | after a call, host_results is its old contents followed by one host row per host in document order, and service_results is its old contents followed by the service rows of every host, hosts in order and ports in order within a host; earlier rows are unchanged |
| Projection.FirstPresent | nmap2csv.rb:19-23 | the result is the first present value of the sequence, and every value before it is absent; the result is absent only when every value is absent |
| Projection.FirstPresentUnique | nmap2csv.rb:19-23 | the first-match rule picks at most one value: two results that both satisfy it are equal |
| Projection.FirstAddressAttr | nmap2csv.rb:19-21 | the result is the attribute of the first address that has the requested addrtype and carries that attribute; no earlier address qualifies; the result is absent exactly when no address qualifies |
| Projection.MacAndVendorFromDifferentElements | nmap2csv.rb:20-21 | Mac and Mac-Vendor are separate lookups: with a first mac address that has no vendor and a second one that has one, Mac comes from the first and Mac-Vendor from the second |
| Projection.FirstScriptOutput | nmap2csv.rb:52 | HTTP-Title is the output of the first script of the port whose id is http-title and which has an output; it is absent exactly when no script of the port qualifies |
| Projection.Ip | nmap2csv.rb:19 | IP-Address is the addr of the first ipv4 address element that carries one, and absent when none does |
| Projection.Mac | nmap2csv.rb:20 | Mac is the addr of the first mac address element that carries one, and absent when none does |
| Projection.MacVendor | nmap2csv.rb:21 | Mac-Vendor is the vendor of the first mac address element that carries one, and absent when none does |
| Projection.Hostname | nmap2csv.rb:22 | Hostname is the first hostname name in document order, and absent when there is none |
| Projection.OsName | nmap2csv.rb:23 | OS is the first osmatch name in document order, and absent when there is none |
| Projection.State | nmap2csv.rb:36 | State is the first state value of the port, and absent when there is none |
| Projection.HttpTitle | nmap2csv.rb:52 | HTTP-Title is the output of the first http-title script child of the port that has an output, and absent when there is none |
| Rows.HostRowOf | nmap2csv.rb:25-31 | builds the host row from the five lookups; its columns are characterised by Rows.HostRowFields |
| Rows.HostRowFields | nmap2csv.rb:19-31 | a host row's IP-Address is the first ipv4 address, its Mac the first mac address, its Mac-Vendor the first mac vendor, its Hostname the first hostname and its OS the first osmatch name, each absent when there is none |
| Rows.ServiceRowFields | nmap2csv.rb:41-58 | a service row repeats its host row's five values; Port, Protocol and Tunnel are copied verbatim; State is the first state value; Service is the name when the confidence is at least the threshold 5 and N/A otherwise; HTTP-Title is the output of the port's first http-title script that has one; Info is Info(svc), has no outer white space and is empty exactly when product, version and extrainfo are each absent or blank |
| Rows.ServiceRowOf | nmap2csv.rb:41-58 | builds the service row from the host row, the port and its service; what each of its columns means, Info included, is stated by Rows.ServiceRowFields |
| Projection.Confidence | nmap2csv.rb:49 | service['conf'].to_i, with an absent conf read as 0; its effect is stated by Projection.ServiceNameOfDecimalConf, Projection.ServiceNameOfNegativeConf, Projection.ServiceNameOfNonNumericConf and Projection.ServiceNameWithoutNumber |
| Projection.ServiceName | nmap2csv.rb:49 | the threshold rule: the name when the confidence is at least 5, "N/A" otherwise; stated per input form by Projection.ServiceNameOfDecimalConf, Projection.ServiceNameOfNegativeConf, Projection.ServiceNameOfNonNumericConf, Projection.ServiceNameWithoutNumber, and per row by Rows.ServiceRowFields |
| Projection.ServiceNameOfDecimalConf | nmap2csv.rb:49 | a confidence written as a decimal number n, optionally followed by non-digit text, gives the service name when n >= 5 and N/A when n < 5 |
| Projection.ServiceNameOfNegativeConf | nmap2csv.rb:49 | a confidence spelled as a minus sign, the decimal rendering of a number and then any text not starting with a digit gives N/A |
| Projection.ServiceNameOfNonNumericConf | nmap2csv.rb:49 | a confidence that, after leading white space, has no digit where the number would start (no sign and a non-digit, or a sign followed by a non-digit or by nothing, as in "v5", "- 5" or "+-5") gives N/A, whatever digits come later |
| Projection.ServiceNameWithoutNumber | nmap2csv.rb:49 | an absent confidence, or one with no digit at all, gives N/A |
| RubyString.ToIOfDecimal | nmap2csv.rb:49 | to_i reads back the decimal rendering of n, unsigned, with a minus sign or with a plus sign, whatever non-digit text follows it |
| RubyString.DigitsValueOfLeadingZero | nmap2csv.rb:49 | a leading zero does not change the value of a digit run |
| RubyString.DigitsValueOfLeadingZeros | nmap2csv.rb:49 | any number of leading zeros does not change the value of a digit run |
| RubyString.ToIOfZeroPaddedDecimal | nmap2csv.rb:49 | to_i reads a zero-padded decimal spelling of n, such as "05", as n |
| RubyString.ToI | nmap2csv.rb:49 | to_i is negative only when the first character after leading white space is a minus sign |
| RubyString.DigitsValueOfDecimal | nmap2csv.rb:49 | the value of the decimal digits of n is n |
| RubyString.ToISkipsLeadingSpace | nmap2csv.rb:49 | leading white space does not change the value of to_i |
| RubyString.ToIWithoutDigits | nmap2csv.rb:49 | a string with no decimal digit converts to 0 |
| RubyString.ToIOfNoLeadingDigit | nmap2csv.rb:49 | a sign followed by a non-digit (or by nothing) converts to 0, and so does a string whose first character is neither a sign, white space nor a digit, whatever digits come later |
| RubyString.ToIOfDigitsThen | nmap2csv.rb:49 | a non-empty run of digits followed by text not starting with a digit converts to the run's value, unsigned, negated after a minus sign, unchanged after a plus sign |
| RubyString.SkipSpace | nmap2csv.rb:49 | the result is the suffix left after dropping only leading white space, and it does not start with white space |
| RubyString.LeadingDigits | nmap2csv.rb:49 | the result is the longest prefix made only of decimal digits |
| RubyString.Decimal | nmap2csv.rb:49 | the decimal rendering is non-empty, all digits, and has no leading zero |
| Projection.Kept | nmap2csv.rb:53-57 | compact.reject(&:empty?) keeps at most as many values as it is given; which values and in what order is stated by Projection.KeptMembers and Projection.KeptConcat |
| Projection.KeptMembers | nmap2csv.rb:53-57 | a string is kept exactly when it is non-empty and present among the values |
| Projection.KeptConcat | nmap2csv.rb:53-57 | compact.reject keeps order: the values kept from a concatenation are those kept from the first part followed by those kept from the second |
| Projection.KeptSingleton | nmap2csv.rb:53-57 | a single value is kept exactly when it is present and non-empty |
| Projection.InfoParts | nmap2csv.rb:53-56 | the three values product, version, extrainfo in that order; Projection.InfoKeptInOrder states the order of what is kept from them |
| Projection.InfoKeptInOrder | nmap2csv.rb:53-57 | the values joined into Info are product, then version, then extrainfo, each only when present and non-empty |
| Projection.Info | nmap2csv.rb:53-57 | the compact, drop-empty, join, strip pipeline over the three values; stated by Projection.InfoEmptyIff, Projection.InfoOfTrimmedParts, Projection.InfoOfThreeParts, Projection.InfoOfPaddedOuterParts, Projection.InfoOfPaddedProduct and Rows.ServiceRowFields |
| Projection.InfoOfThreeParts | nmap2csv.rb:53-57 | with product, version and extrainfo all present, non-empty and trimmed, Info is the three in that order with one space between neighbours |
| Projection.InfoOfPaddedOuterParts | nmap2csv.rb:53-57 | with white space before product and after extrainfo, Info drops just that white space and keeps product, version and extrainfo, one space apart, inner white space included |
| Projection.InfoOfPaddedProduct | nmap2csv.rb:53-57 | a lone product with white space around it gives Info equal to the product without that white space |
| Projection.KeptOfTwoThenEmpty | nmap2csv.rb:53-57 | two non-empty values followed by an empty one keep exactly the two, in order |
| Projection.KeptAllBlank | nmap2csv.rb:53-57 | every kept string is white space exactly when every value is absent or white space |
| Projection.PipelineEmptyIff | nmap2csv.rb:53-57 | compact, drop-empty, join and strip yield "" exactly when every value is absent or made of white space only |
| Projection.InfoEmptyIff | nmap2csv.rb:53-57 | Info is "" exactly when product, version and extrainfo are each absent or made of white space only |
| Projection.InfoOfNothing | nmap2csv.rb:53-57 | Info is "" when product, version and extrainfo are all absent or empty |
| Projection.InfoOfTrimmedParts | nmap2csv.rb:53-57 | when no present value has outer white space, Info is exactly the present non-empty values, in order, joined by single spaces |
| Projection.InfoExample | nmap2csv.rb:53-57 | product "Apache httpd", version "2.4.41" and an empty extrainfo give Info "Apache httpd 2.4.41" |
| RubyString.StripStart | nmap2csv.rb:57 | strip's left cut passes over exactly the leading run of strip characters |
| RubyString.StripEnd | nmap2csv.rb:57 | strip's right cut passes over exactly the trailing run of strip characters, never past the left cut |
| RubyString.Strip | nmap2csv.rb:57 | the stripped string is no longer than the input and has no strip character at either end; which characters it keeps is stated by RubyString.StripOfPadded |
| RubyString.StripStartOfPadded | nmap2csv.rb:57 | the left cut of a string made of strip characters followed by a text that does not start with one is the end of that padding |
| RubyString.StripEndOfPadded | nmap2csv.rb:57 | the right cut stops exactly where a trailing run of strip characters begins |
| RubyString.StripOfPadded | nmap2csv.rb:57 | strip removes exactly the outer padding: a trimmed text between two runs of strip characters is what remains |
| RubyString.StripEmptyIff | nmap2csv.rb:57 | strip gives "" exactly when the string consists only of strip characters |
| RubyString.StripOfTrimmed | nmap2csv.rb:57 | strip leaves a string without outer strip characters unchanged |
| RubyString.StripIdempotent | nmap2csv.rb:57 | stripping twice is stripping once |
| RubyString.JoinSpace | nmap2csv.rb:57 | join(' ') of no parts is "" and of one part is that part; otherwise its length is the parts' total length plus one separator between each pair of neighbours; the contents in order are stated by RubyString.JoinSpaceSnoc |
| RubyString.JoinSpaceSnoc | nmap2csv.rb:57 | join(' ') keeps the parts in order: one more part is added after a single space |
| RubyString.JoinSpaceOfThree | nmap2csv.rb:57 | three parts are joined as first, space, second, space, third |
| RubyString.StripOfPaddedJoin | nmap2csv.rb:57 | joining three parts and stripping removes only white space before the first and after the last part |
| RubyString.JoinSpaceAllStripSpace | nmap2csv.rb:57 | the joined string is all white space exactly when every part is |
| RubyString.JoinSpaceEnds | nmap2csv.rb:57 | the joined string starts with the first part's first character and ends with the last part's last character |
| RubyString.JoinSpaceLastOnly | nmap2csv.rb:57 | the joined string ends with the last part's last character |
| RubyString.JoinSpaceTrimmed | nmap2csv.rb:57 | joining non-empty parts that have no outer white space gives a string with no outer white space |
| Rows.HostRows | nmap2csv.rb:18-31 | one host row per host, in document order: row i is host i's row, hosts without ports included |
| Rows.HostServiceRows | nmap2csv.rb:33-59 | the service rows of one host: its port rows with that host's values; characterised by Rows.PortRowsOfServiced and Rows.PortRowsMembership |
| Rows.ServiceRows | nmap2csv.rb:18-59 | the service rows of a report, the function Parse's postcondition appends; characterised by Rows.ServiceRowsCount, Rows.ServiceRowsMembership and Rows.ServiceRowsSplit |
| Rows.PortRows | nmap2csv.rb:33-59 | one host's service rows are no more than its ports, and each repeats that host's values |
| Rows.Serviced | nmap2csv.rb:38-39 | the ports kept are no more than the ports given, and each has a service |
| Rows.ServicedMembers | nmap2csv.rb:38-39 | a port is kept exactly when it is one of the ports and has a service |
| Rows.PortRowsOfServiced | nmap2csv.rb:33-59 | a host has exactly as many service rows as ports with a service, and its k-th service row is the row of its k-th port with a service |
| Rows.PortRowsConcat | nmap2csv.rb:33-59 | the rows of two runs of ports are the rows of the first run followed by those of the second |
| Rows.PortRowsSnoc | nmap2csv.rb:33-59 | one more port adds its row at the end when it has a service, and nothing otherwise |
| Rows.PortRowsOfPrefix | nmap2csv.rb:33-59 | the rows of the first j + 1 ports are those of the first j, followed by port j's row when it has a service |
| Rows.PortRowsMembership | nmap2csv.rb:33-59 | a row is among one host's service rows exactly when it is the row of one of its ports that has a service |
| Rows.PortRowOfTail | nmap2csv.rb:33-59 | port j of the remaining ports is port j + 1 of the host, so its row is the same |
| Rows.ServiceRowsCount | nmap2csv.rb:33-59 | a report yields exactly one service row per port with a service, over all hosts |
| Rows.ServiceRowsMembership | nmap2csv.rb:18-59 | a row is among a report's service rows exactly when it is the row of some port with a service of some host, with that host's values |
| Rows.ServiceRowsSplit | nmap2csv.rb:18-59 | host i's service rows come after those of every earlier host and before those of every later host |
| Rows.ServiceRowsShareHostRow | nmap2csv.rb:25-46 | every service row of host i has the same IP-Address, Hostname, Mac, Mac-Vendor and OS as host i's host row |
| Rows.HostRowsConcat | nmap2csv.rb:18-31 | the host rows of two runs of hosts are those of the first run followed by those of the second |
| Rows.ServiceRowsConcat | nmap2csv.rb:18-59 | the service rows of two runs of hosts are those of the first run followed by those of the second |
| Rows.ServiceRowsSingleton | nmap2csv.rb:18-59 | a one-host report's service rows are that host's service rows |
| Rows.HostRowsSnoc | nmap2csv.rb:18-31 | one more host adds its host row at the end |
| Rows.ServiceRowsSnoc | nmap2csv.rb:18-59 | one more host adds its service rows at the end |
| Rows.RowsOfPrefix | nmap2csv.rb:18-59 | the rows of the first i + 1 hosts are those of the first i hosts followed by host i's rows |
| Rows.DuplicatesAreKept | nmap2csv.rb:18-59 | rows are not deduplicated: a host that appears twice gives its host row twice and its service rows twice |

## Left out

- Reading the file and evaluating XPath with Nokogiri (nmap2csv.rb:16) is not modelled. This is file I/O and a foreign library. `Parse` takes an already-parsed `Document`, with children in document order.
- `NmapCLI.run` (nmap2csv.rb:69-127) is not modelled: option parsing, directory listing, `mkdir_p`, logging and `exit` are I/O plumbing. Successive `Parse` calls append their rows in call order, as the class carries its rows from one call to the next; which files are parsed and in what order is the caller's choice, and the directory listing that decides it is not modelled.
- `NmapCLI.write_csv` (nmap2csv.rb:129-143) is not modelled. It serialises CSV through Ruby's csv library, which is not part of this model.
- `xpath('//host')` finds host elements at any depth. The model takes the hosts as one sequence in document order and does not model nested or misplaced host elements.
- `at_xpath('service')` uses only the first `service` child of a port. The model gives a port at most one service, as `Option<Service>`.
- RubyString.ToI: does not model `String#to_i`'s underscores between digits (`"1_0"` is 10 in Ruby) or its radix prefixes. Confidence values in Nmap reports are plain decimal numbers.
- RubyString.Strip: treats the characters NUL, tab, line feed, vertical tab, form feed, carriage return and space as white space, as Ruby does. It works on characters, not bytes, and leaves encodings out.
- The CSV column names (`'IP-Address'`, `'OS name'` and so on) are represented by the fields of `HostRow` and `ServiceRow`, not by string-keyed hashes.
