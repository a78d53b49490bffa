# Virgin Media Hub SNMP layer, in Dafny

This project models the SNMP layer of a Python library that drives a Virgin Media Hub
(`snmp.py`). The hub exposes its settings as SNMP objects. Every object is a string; many
are hex forms of addresses and timestamps, and tables are sets of OIDs of the form
`table.column.row`. The layer makes these look like Python attributes and dicts.

The model covers:

- **Translators** (module `Translators`). Each translator is one case of the `Codec` union,
  with an `Encode` (the Python `snmp()`) and a `Decode` (the Python `pyvalue()`). The cases
  are: None/text, the three enumerations (IPVersion, IPProtocol, RowStatus), booleans,
  integers and ports, MAC addresses, IPv4, IPv6, "either IP version", and timestamps. The
  laws about them are in `TranslatorLaws` and `CodecLaws`:
  - each translator reads back what it writes, over the values it is meant for;
  - the malformed and null forms, byte for byte;
  - the docstring examples as lemmas.
- **`IPProtocol.overlaps`** (module `Values`).
- **Attributes** (module `Attributes`). An `Attribute` caches one raw value per OID and
  tracks its status: OK, UNSET (which NEEDS_WRITE is an alias of) or NEEDS_READ.
  - Reading asks the hub only when the status is NEEDS_READ.
  - Writing sets the value, optionally reads it back and compares, and only then caches it.
  - The pure step functions `ReadStep` and `WriteStep` state what a read or write does to
    the cache. The class's methods are proved against them.
- **The hub** (module `Hub`). An in-memory transport stands in for SNMP. It keeps the
  values, the walk order, OIDs whose sets are silently ignored and OIDs that fail, and it
  records every call made to it. Contracts talk about the calls made.
- **Rows** (module `Rows`). `RowBase` becomes one `Row` class holding the insertion-ordered
  dict from attribute name to attribute. Python instead builds a fresh class per row whose
  class attributes are those attributes.
- **`parse_table`** (module `TableParse`). It is a pure grouping function with a reference
  definition: the last walked pair for a place wins. A loop method is proved equal to it.
- **Tables** (module `Tables`). The class `Table` has:
  - the constructor (`Load`), which walks, parses, drops undeclared columns and empty rows,
    and seeds each attribute by decoding and re-encoding the walked value;
  - `new_row` (`NewRow`), which checks the key and the argument names, then creates one
    NEEDS_WRITE attribute per named column, so each is written at once, in mapping order;
  - `__delitem__` (`Remove`), which probes `rowstatus` as `hasattr` does, writes DESTROY,
    then deletes;
  - `aslist` (`AsList`).

Python dicts are modelled as `Dicts.Dict`: a key sequence in insertion order, plus a map.

As written, the IPv6 encoder formats each 16-bit word with `{0:02x}`, which keeps at least
two digits per word, not four. So an address whose words are not "aligned" does not read
back as itself. `TranslatorLaws.IPv6EncodeLosesPlaces` shows this on the docstring's own
example: `::c:fd8:400f:f558:0` is written `$0000000cfd8400ff55800`, and that reads back as
a different address. `TranslatorLaws.IPv6RoundTrip` states the condition under which the
round trip does hold. The docstring records the same output, so this is modelled as written.

## Model

| member | source | states |
|---|---|---|
| Values.Overlaps | snmp.py:47-65 | two protocol settings overlap exactly when they share a transport protocol (UDP, TCP, BOTH as both) |
| Values.Members | snmp.py:24-29 | every member listed for an enumeration belongs to it |
| Values.FindByValue | snmp.py:205-206 | `enumclass(raw)`: a member found has that wire value; none found means no member has it |
| Values.FindByName | snmp.py:199-203 | `enumclass[name]`: a member found has that name; none found means no member has it |
| Values.Truthy | snmp.py:222 | `bool(v)`: None, "", zero numbers and False are false; what it decides is stated through the translators by TranslatorLaws.BoolLaws and TranslatorLaws.DateTimeNull |
| Values.PyStr | snmp.py:184 | `str(v)` for the kinds of value whose text form is modelled; stated through the translators by TranslatorLaws.NullRoundTrip and TranslatorLaws.EnumByName |
| Translators.NullEncode | snmp.py:181-184 | None is "", anything else its `str()`; its laws are TranslatorLaws.NullRoundTrip |
| Translators.NullDecode | snmp.py:186-189 | "" is None, other text is itself; its laws are TranslatorLaws.NullRoundTrip |
| Translators.EnumEncode | snmp.py:199-203 | a member is its wire value, text is looked up by name; its laws are TranslatorLaws.EnumRoundTrip and TranslatorLaws.EnumByName |
| Translators.EnumDecode | snmp.py:205-206 | the member with that wire value; its laws are TranslatorLaws.EnumRoundTrip and TranslatorLaws.EnumDecodeFails |
| Translators.BoolEncode | snmp.py:219-222 | "1" for truthy values other than the text "false", else "2"; its laws are TranslatorLaws.BoolLaws and TranslatorLaws.BoolFalseSpellings |
| Translators.BoolDecode | snmp.py:224-229 | true exactly for "1"; its laws are TranslatorLaws.BoolLaws |
| Translators.IntEncode | snmp.py:256-274 | None is "", a number its decimal text; its laws are TranslatorLaws.IntRoundTrip |
| Translators.IntDecode | snmp.py:277-293 | "" is None, decimal text its number; its laws are TranslatorLaws.IntRoundTrip |
| Translators.MacEncode | snmp.py:334-337 | '$' and 12 hex digits; its laws are TranslatorLaws.MacRoundTrip and TranslatorLaws.MacNullAndMalformed |
| Translators.MacDecode | snmp.py:323-332 | the null forms are None, a malformed value fails; its laws are TranslatorLaws.MacRoundTrip and TranslatorLaws.MacNullAndMalformed |
| Translators.IPv4Encode | snmp.py:356-365 | '$' and the four octets in two hex digits each; its laws are TranslatorLaws.IPv4RoundTrip and TranslatorLaws.IPv4NullAndMalformed |
| Translators.IPv4Decode | snmp.py:368-377 | the null forms are None, a malformed value fails; its laws are TranslatorLaws.IPv4RoundTrip and TranslatorLaws.IPv4NullAndMalformed |
| Translators.IPv6Encode | snmp.py:400-409 | '$' and the eight words in `{0:02x}` each; its laws are TranslatorLaws.IPv6RoundTrip and TranslatorLaws.IPv6EncodeLosesPlaces |
| Translators.IPv6Decode | snmp.py:412-424 | the null forms are None, a malformed value fails; its laws are TranslatorLaws.IPv6RoundTrip and TranslatorLaws.IPv6LoopbackDecode |
| Translators.IPAddressEncode | snmp.py:458-465 | IPv4 or IPv6 by the address's version; its laws are CodecLaws.IPAddressRoundTrip and TranslatorLaws.IPAddressNullAndShort |
| Translators.IPAddressDecode | snmp.py:467-474 | IPv4 or IPv6 by length; its laws are TranslatorLaws.IPAddressDispatch and TranslatorLaws.IPAddressNullAndShort |
| Translators.DateTimeEncode | snmp.py:516-525 | the 17-character hex layout; its laws are TranslatorLaws.DateTimeLayout and TranslatorLaws.DateTimeRoundTrip |
| Translators.DateTimeDecode | snmp.py:504-514 | the six hex fields as a timestamp; its laws are TranslatorLaws.DateTimeRoundTrip and TranslatorLaws.DecodeFields |
| Translators.DataTypeOf | snmp.py:598-605 | the SNMP data type each translator's sets carry; stated in the calls by Attributes.WriteCalls |
| Translators.Encode | snmp.py:158-172 | `translator.snmp(v)` for each translator; its law is CodecLaws.CodecRoundTrip |
| Translators.Decode | snmp.py:158-172 | `translator.pyvalue(raw)` for each translator; its laws are CodecLaws.CodecRoundTrip and CodecLaws.ReadWriteRead |
| TranslatorLaws.MemberListed | snmp.py:24-45 | every member of IPVersion, IPProtocol and RowStatus is listed for its enumeration |
| TranslatorLaws.MembersDistinct | snmp.py:527-557 | within an enumeration, wire values and names are pairwise distinct |
| TranslatorLaws.FindByValueOf | snmp.py:205-206 | lookup by wire value finds the member with that value |
| TranslatorLaws.FindByNameOf | snmp.py:199-203 | lookup by name finds the member with that name |
| TranslatorLaws.EnumRoundTrip | snmp.py:199-206 | a member is written as its wire value, and that value reads back as the member |
| TranslatorLaws.EnumDecodeFails | snmp.py:205-206 | decoding fails exactly when no member has that wire value; "" always fails |
| TranslatorLaws.EnumByName | snmp.py:199-203 | text naming a member is written as that member's wire value |
| TranslatorLaws.NullRoundTrip | snmp.py:175-189 | every raw string survives decode then encode; None and non-empty text survive encode then decode |
| TranslatorLaws.IntRoundTrip | snmp.py:247-293 | None is "" and back; every integer is written as non-empty decimal text that reads back as itself |
| TranslatorLaws.BoolLaws | snmp.py:215-229 | the written form is "1" exactly for truthy values other than the text "false" in any case; only "1" reads as true; a bool survives the round trip |
| TranslatorLaws.BoolFalseSpellings | snmp.py:218-222 | "false", "FALSE", "False", None, 0 and "" are written "2"; "true" is written "1" |
| TranslatorLaws.MacRoundTrip | snmp.py:322-337 | a non-null MAC is '$' plus 12 lower-case hex digits denoting it, and reads back as itself |
| TranslatorLaws.MacNullAndMalformed | snmp.py:322-337 | None is `$000000000000`; "" and that string read as None; anything else without '$' or not 13 long fails |
| TranslatorLaws.MacExample | snmp.py:316-319 | `$787b8a6413f5` and the address 78:7b:8a:64:13:f5 translate into each other |
| TranslatorLaws.MacExampleDecode | snmp.py:316-317 | `$787b8a6413f5` reads as 78:7b:8a:64:13:f5 |
| TranslatorLaws.MacHex | snmp.py:337 | the 12-digit hex form of 0x787b8a6413f5 is "787b8a6413f5" |
| TranslatorLaws.MacDigits | snmp.py:329 | "787b8a6413f5" is hex and denotes 0x787b8a6413f5 |
| TranslatorLaws.IPv4RoundTrip | snmp.py:355-377 | a non-null IPv4 address is '$' and 8 lower-case hex digits, with octet i at digits 2i+1..2i+2, and reads back as itself |
| TranslatorLaws.IPv4NullAndMalformed | snmp.py:355-377 | None is `$00000000`; "" and that string read as None; a value without '$' or not 9 long fails |
| TranslatorLaws.IPv4Example | snmp.py:348-351 | 192.168.4.100 and `$c0a80464` translate into each other |
| TranslatorLaws.IPv4Hex | snmp.py:365 | the octets of 192.168.4.100, two hex digits each, give "c0a80464" |
| TranslatorLaws.IPv4Digits | snmp.py:377 | "c0a80464" denotes 0xc0a80464 |
| TranslatorLaws.OctetsValue | snmp.py:365 | octets formatted two digits each make 2 digits per octet, denoting the octets' value |
| TranslatorLaws.OctetAt | snmp.py:365 | octet i sits at digits 2i..2i+1 of the formatted octets |
| TranslatorLaws.WordsValueOfWords | snmp.py:365 | splitting a number into words of a base and recombining them gives it back |
| TranslatorLaws.IPv6RoundTrip | snmp.py:399-424 | a non-null IPv6 address whose words after the first non-zero one all have 4 hex digits is written as '$' and 16 to 32 digits, and reads back as itself |
| TranslatorLaws.AlignedValue | snmp.py:409 | for aligned words, the concatenated `{0:02x}` forms have 2 to 4 digits per word and denote the words' value |
| TranslatorLaws.WordDigits | snmp.py:409 | `{0:02x}` of a 16-bit word has 2 to 4 digits and denotes the word |
| TranslatorLaws.IPv6EncodeLosesPlaces | snmp.py:392-397 | `$000c0fd8400ff5580000` reads as ::c:fd8:400f:f558:0, which is written `$0000000cfd8400ff55800`, which reads back as a different address |
| TranslatorLaws.PlacesLostDecode | snmp.py:392-397 | the two raw forms of the docstring read as the two different addresses |
| TranslatorLaws.PlacesLostFormat | snmp.py:409 | the `{0:02x}` forms of ::c:fd8:400f:f558:0's words concatenate to "0000000cfd8400ff55800" |
| TranslatorLaws.PlacesLostWords | snmp.py:409 | the eight words of ::c:fd8:400f:f558:0 |
| TranslatorLaws.FormatWordsAppend | snmp.py:409 | formatting words is concatenation over the words |
| TranslatorLaws.IPv6LoopbackEncode | snmp.py:382-383 | ::1 is written `$0000000000000001` |
| TranslatorLaws.IPv6LoopbackDecode | snmp.py:384-387 | the 16-digit and 32-digit forms of ::1 read as ::1; the all-zero form and "" read as None |
| TranslatorLaws.IPAddressNullAndShort | snmp.py:458-474 | None is the IPv4 null; "" and both all-zero forms read as None; a raw value without '$' or under 9 characters reads as an exception object, not a failure |
| TranslatorLaws.IPAddressDispatch | snmp.py:472-474 | a '$' value of length 9 is read as IPv4, a longer one as IPv6 |
| TranslatorLaws.DateTimeLayout | snmp.py:523-525 | a timestamp is written as 17 characters: '$', year in 4 hex digits, month, day, hour, minute and second in 2 each, then "00" |
| TranslatorLaws.DateTimeRoundTrip | snmp.py:503-525 | every valid timestamp reads back as itself |
| TranslatorLaws.DecodeFields | snmp.py:507-513 | when the six hex fields parse to a valid timestamp, that timestamp is the result |
| TranslatorLaws.DateTimeDecodeChecks | snmp.py:507-513 | an unparsable year or second fails; a success needs at least 14 characters |
| TranslatorLaws.DateTimeIgnoresFirstChar | snmp.py:507-513 | the first character is never looked at: changing it changes neither success nor result |
| TranslatorLaws.DateTimeExample | snmp.py:490-497 | 2018-03-14 16:07:17 and `$07e2030e10071100` translate into each other |
| TranslatorLaws.DateTimeNull | snmp.py:499-518 | every falsy value is written as the all-zero form; that form and "" read as None |
| TranslatorLaws.NullYear | snmp.py:505-507 | the all-zero form has year field 0, so only its explicit check keeps it from failing |
| CodecLaws.CodecRoundTrip | snmp.py:158-525 | every value in a translator's domain is written without error and reads back as itself |
| CodecLaws.IPAddressRoundTrip | snmp.py:458-474 | the same for the IPv4-or-IPv6 translator |
| CodecLaws.DecodedInDomain | snmp.py:158-525 | what a translator other than IPv6 and IPAddress reads lies in its domain |
| CodecLaws.ReadWriteRead | snmp.py:158-525 | writing back what a translator read and reading again gives the same value |
| CodecLaws.EmptyRaw | snmp.py:158-525 | "" reads as False for booleans, fails for enumerations, and is None for every other translator |
| Hub.HubState.Answer | snmp.py:126 | what snmp_get answers: the stored value, or a failure for a failing or unknown OID |
| Hub.HubState.Applied | snmp.py:137 | snmp_set changes only its OID, and not when that OID ignores or fails sets |
| Hub.HubState.Walk | snmp.py:755 | snmp_walk lists exactly the stored OIDs below the root, with their values |
| Attributes.ReadStep | snmp.py:124-134 | the hub is asked only for NEEDS_READ; UNSET fails; a success caches the value as OK; a failure leaves the cache |
| Attributes.WriteStep | snmp.py:136-147 | a write passes exactly when the set passes and, with read-back on, the hub reads back the written value; then it caches as OK, otherwise the cache is unchanged |
| Attributes.WriteCalls | snmp.py:136-139 | one set, then one get when the set passed and read-back is on |
| Attributes.ReadIsCached | snmp.py:129-134 | after a successful read, every later read gives the same value without asking the hub |
| Attributes.ReadAfterWrite | snmp.py:136-149 | after a successful write, a read gives the written value without asking the hub |
| Attributes.Attribute.Create | snmp.py:570-609 | NEEDS_READ ignores the value; otherwise the value is encoded first; NEEDS_WRITE needs a transport and writes at once, with WriteStep's outcome |
| Attributes.Attribute.Reread | snmp.py:124-127 | one get; a success caches it as OK |
| Attributes.Attribute.RawRead | snmp.py:129-134 | follows ReadStep, with one get exactly when the status was NEEDS_READ |
| Attributes.Attribute.Read | snmp.py:611-612 | the raw read, decoded by the translator |
| Attributes.Attribute.WriteRaw | snmp.py:136-149 | follows WriteStep, making WriteCalls' calls, and the hub takes the set |
| Attributes.Attribute.Write | snmp.py:614-615 | a value the translator refuses fails with no call; otherwise its encoding is written as WriteRaw does |
| Attributes.Attribute.Delete | snmp.py:151-152 | deleting always fails |
| TableParse.OidParts | snmp.py:683-687 | `table.column.row` splits back into that column and that row, dots in the row included |
| TableParse.OidWithoutRow | snmp.py:683-687 | `table.column` lands in column `column` of the row with the empty id |
| TableParse.ColumnId | snmp.py:683-684 | `column_id`: the first dotted segment after the table OID; its laws are TableParse.OidParts and TableParse.OidWithoutRow |
| TableParse.RowId | snmp.py:686-687 | `row_id`: the later segments joined with dots; its laws are TableParse.OidParts and TableParse.OidWithoutRow |
| TableParse.PlacedAt | snmp.py:689-692 | a pair whose OID is `table.column.row`, the column without dots, lands in that row and that column with its raw value |
| TableParse.LastAtNone | snmp.py:689-696 | nothing is found at a place exactly when no pair lands there |
| TableParse.LastAtSome | snmp.py:689-696 | what is found at a place is the value of a pair landing there with no later pair at the same place |
| TableParse.GroupCells | snmp.py:689-696 | the grouped dict holds, at each row and column, the value of the last pair placed there, and nothing elsewhere |
| TableParse.Parse | snmp.py:679-696 | the result is a dict of dicts: keys listed once each, exactly the entries' keys |
| TableParse.ParseCells | snmp.py:679-696 | the same for the walk itself |
| TableParse.GroupStep | snmp.py:693-695 | grouping one more pair inserts it into the earlier result |
| TableParse.ParseTable | snmp.py:679-696 | the loop computes the grouping by rows and columns |
| Rows.Names | snmp.py:825 | the mapping's names in order, distinct for a mapping |
| Rows.ColumnFor | snmp.py:766-770 | `column_mapping[id]`: a column found has that id; none found means no column has it |
| Rows.WithIds | snmp.py:762-772 | exactly the columns whose id is present |
| Rows.WithNames | snmp.py:797-799 | exactly the columns whose name is present |
| Rows.SameSelection | snmp.py:797-799 | selecting by names equals selecting by ids when the two agree on every column |
| Rows.WithNamesMapping | snmp.py:842-843 | a selection of a mapping is a mapping |
| Rows.Row.Keys | snmp.py:641-642 | the attribute names, each once |
| Rows.Row.Len | snmp.py:647-648 | the number of attribute names |
| Rows.Row.Contains | snmp.py:664-665 | membership among the attribute names |
| Rows.Row.GetItem | snmp.py:653-654 | reads the named attribute as Attribute.Read does, leaving the other attributes; an unknown name fails without a call |
| Rows.Row.Get | snmp.py:656-659 | for a name of the row, reads the attribute as GetItem does: its cache follows ReadStep, one get exactly when it was NEEDS_READ, the other attributes untouched; an unknown name gives the default without a call |
| Rows.ReadAgain | snmp.py:129-134 | after a read that succeeded, reading again changes nothing and gives the same value |
| Rows.ReadAll | snmp.py:644-645 | reads the attributes in order, each from the caches so far; the first failure ends the run; the caches keep their domain |
| Rows.FirstFail | snmp.py:644-645 | the position of the first attribute whose read fails: every earlier read succeeds and that one fails |
| Rows.ReadAllOk | snmp.py:644-645 | a run succeeds exactly when no read fails; then value i is attribute i's own read from the starting caches, and each attribute read holds its read's cache even when it appears under two names |
| Rows.ReadAllErr | snmp.py:644-645 | a failed run has the first failing read's error; the attributes up to it hold their reads' caches and the others keep theirs |
| Rows.ReadAllStops | snmp.py:644-645 | once a prefix of the run fails, the whole run ends the same way |
| Rows.Row.Attributes | snmp.py:644-645 | the attributes in name order: every attribute of the row, and nothing else |
| Rows.Row.Values | snmp.py:644-645 | the result and the new caches are ReadAll's from the old caches; the hub is not changed and only gets are made |
| Rows.Row.Items | snmp.py:650-651 | as Values, with value i paired with name i, and the first failing read's error otherwise |
| Tables.Seed | snmp.py:780-785 | the walked value decoded and encoded again; its law is Tables.SeedReadsAsWalked |
| Tables.SeedReadsAsWalked | snmp.py:780-785 | a loaded attribute reads as the walked value reads, for every translator but the IPv6 ones |
| Tables.KeptRows | snmp.py:771-793 | exactly the walked rows with a declared column |
| Tables.MappingKeys | snmp.py:716-722 | in a mapping, a column is known by its name and by its id |
| Tables.SeedCells | snmp.py:779-790 | fails exactly when some declared cell does not survive decode and encode; otherwise one new OK attribute per declared cell, cached with the re-encoded value |
| Tables.InMappingOrder | snmp.py:797-799 | the same attributes, in mapping order |
| Tables.LoadRow | snmp.py:777-802 | a new row whose names are the present columns' names in mapping order, each attribute seeded from its walked value |
| Tables.LoadRows | snmp.py:762-802 | fails exactly when some cell fails to seed; otherwise the kept rows, in walk order, each loaded |
| Tables.Table.Load | snmp.py:740-806 | at most one walk and no other call; the table holds the kept rows of the parsed walk, each loaded, or fails as the walk or a seed fails; the table is valid, so every attribute is its column's cell with OID `table.column.key` |
| Tables.FirstUnknown | snmp.py:827-830 | the first argument that is not a column name; none exactly when all are names |
| Tables.CheckArgs | snmp.py:825-830 | the loop finds the first unknown argument name |
| Tables.SetsAppend | snmp.py:832-844 | the sets of concatenated call lists are the concatenated sets |
| Tables.SetsOfWrite | snmp.py:136-139 | a write makes exactly one set |
| Tables.EncodesAt | snmp.py:837 | each raw value written is the translator's encoding of its argument |
| Tables.WrittenReadsBack | snmp.py:832-846 | an argument in its translator's domain reads back from the new row as itself |
| Tables.NewSets | snmp.py:832-844 | one set per selected column |
| Tables.MadeCellsNext | snmp.py:832-844 | adding the next written attribute extends the made cells in mapping order |
| Tables.NewCalls | snmp.py:832-844 | the calls new_row's writes make when all go through; its law is Tables.NewCallsSets |
| Tables.NewCallsSets | snmp.py:832-844 | the sets among those calls are one per column, in mapping order |
| Tables.Stored | snmp.py:832-844 | the hub after new_row's sets, in order; failing and ignoring OIDs stay as they were |
| Tables.CellOidsDiffer | snmp.py:837 | cells of one row in different columns have different OIDs |
| Tables.StoredAnswers | snmp.py:832-844 | after the writes, the hub answers each written cell with the raw value written, unless that OID fails or ignores sets |
| Tables.StoredElsewhere | snmp.py:832-844 | the writes change the hub's answer at no OID but the row's written cells |
| Tables.WritesNext | snmp.py:832-844 | one more column extends the calls by that column's write and the hub by its set |
| Tables.AddCell | snmp.py:832-841 | one NEEDS_WRITE attribute is made and written; on success the cells and encodings grow by that column, the calls so far are exactly NewCalls and the hub is Stored |
| Tables.MakeRow | snmp.py:832-846 | a new row with one OK attribute per selected column, in mapping order, each holding its argument's encoding; the calls made are exactly NewCalls and the new hub is Stored |
| Tables.Instantiate | snmp.py:845-846 | a new row over the attributes, leaving them as they are |
| Tables.Table.NewRow | snmp.py:813-849 | a key already present, then an unknown argument name, fail with no call; otherwise the row, calls and hub as MakeRow makes them, registered under the key only on success; the table stays valid |
| Tables.PlacedBy | snmp.py:832-843 | a row whose attributes are the cells of columns drawn from the mapping is placed in the table |
| Tables.LoadedPlaced | snmp.py:777-802 | every attribute of a loaded row is a declared column's cell, with OID `table.column.key` |
| Tables.MadePlaced | snmp.py:832-843 | the same for a row new_row makes |
| Tables.Table.SetItem | snmp.py:848 | registers the row under its key, leaving its attributes as they are and the table valid |
| Tables.Table.Remove | snmp.py:889-892 | a missing key fails; without `rowstatus` the row is removed; with it, the probe read decides, with its cache and calls: unset counts as absent, other failures stop; a present one is written DESTROY from the probe's cache, with WriteStep's cache and WriteCalls' calls, and only success removes the row |
| Tables.Table.AsList | snmp.py:880-887 | the rows in key order |

## Left out

- Python's duck typing. A value is one case of `Values.Value`. Encoding a value of a case
  a translator does not take gives `TypeMismatch`, where Python may coerce it first: it
  parses strings with `netaddr.IPAddress`, uses `int()` on any number-like object, and
  `str()` on arbitrary objects.
- netaddr parsing of address text, such as "192.168.4.100" or "::1", is not part of this
  model. Addresses are numbers here, so the docstring examples that start from text are
  stated from the number.
- `int()` accepts an optional sign and decimal digits here. Surrounding whitespace and
  underscores, which Python also accepts, are not modelled.
- Strings.ParseHex: accepts hex digits only. Python's `int(s, 16)` also takes a `0x`
  prefix, a sign, surrounding whitespace and underscores between digits. So an IPv4 or IPv6
  raw value such as "$0x00000f", or a timestamp whose year field is " 7e2", decodes in
  Python but fails here. The hub sends plain hex digits. The MAC decoder's `netaddr.EUI`
  parsing is modelled by the same hex-digit check.
- Timestamps are whole seconds without a time zone. Microseconds and `tzinfo` are not
  modelled.
- `warnings.warn` for an empty walk or a table without rows: it has no effect on the
  result.
- `TransportProxy` and `TransportProxyDict`: the transport is passed to each operation
  instead. The real SNMP transport and its network I/O are not part of this model; the
  in-memory `Hub.Transport` stands in for them.
- `RowBase.__iter__`, every `__str__`/`__repr__`, `Table.format` and
  `Table.format_by_row`: these are text output only.
- Docstrings, `doc` arguments and translator names: no behaviour depends on them.
- Python builds one row class per row and calls it with `row_class`. The model keeps one
  `Row` class holding the attribute dict, so a custom `row_class` is not modelled.
- Column names are taken to be distinct, because they become attribute names of one class.
- `_value` holds `None` in Python until the first read or write; the model holds "" there,
  which no operation reads.
- `getattr` on a row for a name that is not a column (Python's ordinary attribute lookup)
  is reported as `NoSuchColumn`.
- TranslatorLaws.IPv6RoundTrip: the round trip is proved only for aligned addresses. The
  encoder as written does not round-trip the others (see `IPv6EncodeLosesPlaces`).
- Tables.SeedReadsAsWalked: not stated for the IPv6 and IPAddress translators, whose
  re-encoding of a loaded value can differ from the walked one for unaligned addresses.
- CodecLaws.DecodedInDomain and CodecLaws.ReadWriteRead: not stated for the IPv6 and
  IPAddress translators, for the same reason.
- TranslatorLaws.DateTimeIgnoresFirstChar: stated only for raw values other than the
  all-zero form, and only for success and the decoded value. When decoding fails, the error
  carries the raw text, so it does depend on the first character.
- Tables.SeedCells: states that it fails exactly when some declared cell fails to seed,
  but not which error it fails with when several do (the first in raw column order).
- Tables.Table.NewRow: does not state that the new row's attributes are newly made
  objects, only that the row is. The attributes come from fresh `Attribute.Create` calls,
  but that freshness is not carried through the loop.
- Tables.MakeRow: the same as `Tables.Table.NewRow`; only the row is stated to be new.
- Tables.Table.NewRow: on a failed write, the writes already made stay done on the hub.
  The model keeps this but does not describe the partial calls.
- `hasattr` in `__delitem__` catches only `AttributeError`. The model treats only "not yet
  set" as absent, and every other failure of the probe read stops the deletion.
