/**
 * The service catalogue: `services.txt` holds one `key,name,price` line per
 * service, and the clinic keeps a dictionary from key to name and price.
 * Reading the file is left to the caller; these modules parse its lines.
 */

/** One line of `services.txt`. */
module ServiceLine {
  import opened Wrappers
  import opened Text

  /** One catalogue entry: the `{"name": ..., "price": ...}` dictionary. */
  datatype Service = Service(name: string, price: int)

  /**
   * One line: stripped, split on ',' into exactly three fields, the third an
   * integer. None stands for the ValueError the unpacking or `int` raises.
   */
  function ParseServiceLine(line: string): (r: Option<(string, Service)>)
    ensures r.Some? ==> ',' !in r.value.0 && ',' !in r.value.1.name
    ensures r.Some? ==> r.value.0 == [] || !IsSpace(r.value.0[0])
  {
    StripSpec(line);
    var fields := Split(Strip(line), ',');
    if |fields| != 3 then None
    else match ParseInt(fields[2])
      case None => None
      case Some(price) => Some((fields[0], Service(fields[1], price)))
  }

  /** The line a catalogue editor writes for one entry. */
  function FormatServiceLine(key: string, service: Service): string
  {
    key + "," + service.name + "," + IntToString(service.price)
  }

  /**
   * Parsing a formatted line gives back the key and the entry, provided the
   * key and the name hold no comma and the key does not start with blanks.
   */
  lemma ParseFormattedLine(key: string, service: Service)
    requires ',' !in key && ',' !in service.name
    requires key == [] || !IsSpace(key[0])
    ensures ParseServiceLine(FormatServiceLine(key, service)) == Some((key, service))
  {
    var price := IntToString(service.price);
    PriceText(service.price);
    var fields := [key, service.name, price];
    FormattedIsJoin(key, service);
    var line := FormatServiceLine(key, service);
    assert line[0] == if key == [] then ',' else key[0];
    assert line[|line| - 1] == price[|price| - 1];
    StripUnchanged(line);
    SplitJoin(fields, ',');
    assert Split(Strip(line), ',') == fields;
    ParseIntToString(service.price);
  }

  /**
   * Writing back the entry of a line that parses gives a line that parses to
   * the same entry.
   */
  lemma ParsedLineFormats(line: string)
    requires ParseServiceLine(line).Some?
    ensures var (key, service) := ParseServiceLine(line).value;
      ParseServiceLine(FormatServiceLine(key, service)) == ParseServiceLine(line)
  {
    var (key, service) := ParseServiceLine(line).value;
    ParseFormattedLine(key, service);
  }

  /**
   * A stripped line that does not split into three fields is rejected; one
   * that parses is its key, its name and a comma-free price text that `int`
   * reads as the price, joined with ','.
   */
  lemma ParsedLineFields(line: string)
    ensures |Split(Strip(line), ',')| != 3 ==> ParseServiceLine(line).None?
    ensures ParseServiceLine(line).Some? ==>
      var (key, service) := ParseServiceLine(line).value;
      exists price: string :: && Strip(line) == key + "," + service.name + "," + price
                              && ',' !in price && ParseInt(price) == Some(service.price)
  {
    var fields := Split(Strip(line), ',');
    if ParseServiceLine(line).Some? {
      var (key, service) := ParseServiceLine(line).value;
      JoinSplit(Strip(line), ',');
      assert fields[1..] == [fields[1], fields[2]];
      assert [fields[1], fields[2]][1..] == [fields[2]];
      assert Join([fields[1], fields[2]], [',']) == fields[1] + [','] + fields[2];
      assert Strip(line) == key + "," + service.name + "," + fields[2];
    }
  }

  /**
   * Conversely, a line whose stripped text is a comma-free key, name and
   * price text joined with ',' parses to that key and name and the price
   * `int` reads, whenever it reads one.
   */
  lemma LineFromFields(line: string, key: string, name: string, price: string)
    requires Strip(line) == key + "," + name + "," + price
    requires ',' !in key && ',' !in name && ',' !in price
    ensures ParseServiceLine(line) == match ParseInt(price)
      case None => None
      case Some(n) => Some((key, Service(name, n)))
  {
    var fields := [key, name, price];
    assert fields[1..] == [name, price];
    assert [name, price][1..] == [price];
    assert Join([name, price], [',']) == name + [','] + price;
    assert Strip(line) == Join(fields, [',']);
    SplitJoin(fields, ',');
  }

  /** The text of a price holds no comma and ends in a digit. */
  lemma PriceText(price: int)
    ensures var text := IntToString(price); text != [] && ',' !in text && IsDigit(text[|text| - 1])
  {
    var digits := NatToString(if price < 0 then -price else price);
    if price < 0 {
      assert IntToString(price) == "-" + digits;
    }
  }

  /** A formatted line is its three fields joined with ','. */
  lemma FormattedIsJoin(key: string, service: Service)
    ensures FormatServiceLine(key, service) == Join([key, service.name, IntToString(service.price)], [','])
  {
    var price := IntToString(service.price);
    assert [key, service.name, price][1..] == [service.name, price];
    assert [service.name, price][1..] == [price];
    assert Join([service.name, price], [',']) == service.name + [','] + price;
  }
}

/** The whole of `services.txt`, as the clinic's dictionary of services. */
module ServiceCatalog {
  import opened Wrappers
  import opened ServiceLine

  type Catalog = map<string, Service>

  /**
   * The entries of the lines, in file order; None as soon as one line is
   * malformed (the load raises and nothing is kept).
   */
  function ParseEntries(lines: seq<string>): (r: Option<seq<(string, Service)>>)
    ensures r.Some? ==> |r.value| == |lines|
    ensures r.Some? ==> forall i | 0 <= i < |lines| :: ParseServiceLine(lines[i]) == Some(r.value[i])
  {
    if lines == [] then Some([])
    else
      var init := lines[..|lines| - 1];
      match ParseEntries(init)
      case None => None
      case Some(entries) =>
        match ParseServiceLine(lines[|lines| - 1])
        case None => None
        case Some(entry) => Some(entries + [entry])
  }

  /** Dictionary assignment of the entries in order: a later key overwrites an earlier one. */
  function Insert(entries: seq<(string, Service)>): Catalog
  {
    if entries == [] then map[]
    else Insert(entries[..|entries| - 1])[entries[|entries| - 1].0 := entries[|entries| - 1].1]
  }

  /** `load_services` over the lines of the file. */
  function ParseServices(lines: seq<string>): Option<Catalog>
  {
    match ParseEntries(lines)
    case None => None
    case Some(entries) => Some(Insert(entries))
  }

  /** The load succeeds exactly when every line of the file parses. */
  lemma {:induction false} AllLinesParse(lines: seq<string>)
    ensures ParseServices(lines).Some? <==> forall i | 0 <= i < |lines| :: ParseServiceLine(lines[i]).Some?
  {
    if lines != [] {
      var init := lines[..|lines| - 1];
      AllLinesParse(init);
      if forall i | 0 <= i < |lines| :: ParseServiceLine(lines[i]).Some? {
        assert forall i | 0 <= i < |init| :: init[i] == lines[i];
      }
    }
  }

  /** A key is in the catalogue exactly when some entry carries it. */
  lemma {:induction false} InsertKeys(entries: seq<(string, Service)>, key: string)
    ensures key in Insert(entries) <==> exists i | 0 <= i < |entries| :: entries[i].0 == key
  {
    if entries != [] {
      var n := |entries| - 1;
      var init := entries[..n];
      InsertKeys(init, key);
      if key in Insert(entries) && entries[n].0 != key {
        var i :| 0 <= i < n && init[i].0 == key;
        assert entries[i].0 == key;
      }
      if key !in Insert(entries) {
        assert forall i | 0 <= i < n :: entries[i] == init[i];
      }
    }
  }

  /** The entry kept for a key is that of the LAST entry carrying it. */
  lemma {:induction false} InsertLastWins(entries: seq<(string, Service)>, key: string)
    requires key in Insert(entries)
    ensures exists i | 0 <= i < |entries| ::
              && entries[i] == (key, Insert(entries)[key])
              && forall j | i < j < |entries| :: entries[j].0 != key
  {
    var n := |entries| - 1;
    var init := entries[..n];
    if entries[n].0 != key {
      InsertLastWins(init, key);
      var i :| 0 <= i < n && init[i] == (key, Insert(init)[key])
               && forall j | i < j < n :: init[j].0 != key;
      assert entries[i] == (key, Insert(entries)[key]);
    }
  }

  /**
   * After a successful load, a key is in the catalogue exactly when some line
   * carries it, and its entry is the one parsed from the last such line.
   */
  lemma ParseServicesLastWins(lines: seq<string>, key: string)
    requires ParseServices(lines).Some?
    ensures key in ParseServices(lines).value <==>
            exists i | 0 <= i < |lines| :: ParseServiceLine(lines[i]).Some? && ParseServiceLine(lines[i]).value.0 == key
    ensures key in ParseServices(lines).value ==>
            exists i | 0 <= i < |lines| ::
              && ParseServiceLine(lines[i]) == Some((key, ParseServices(lines).value[key]))
              && forall j | i < j < |lines| :: ParseServiceLine(lines[j]).value.0 != key
  {
    var entries := ParseEntries(lines).value;
    InsertKeys(entries, key);
    if key in ParseServices(lines).value {
      InsertLastWins(entries, key);
    }
  }

  /** `VetClinic.load_services` over lines already read from the file. */
  method LoadServices(lines: seq<string>) returns (catalog: Option<Catalog>)
    ensures catalog == ParseServices(lines)
  {
    var services: Catalog := map[];
    ghost var entries := [];
    var i := 0;
    while i < |lines|
      invariant 0 <= i <= |lines|
      invariant ParseEntries(lines[..i]) == Some(entries) && services == Insert(entries)
    {
      var parsed := ParseServiceLine(lines[i]);
      if parsed.None? {
        ParseEntriesFails(lines, i);
        return None;
      }
      ParseEntriesSnoc(lines, i, entries);
      services := services[parsed.value.0 := parsed.value.1];
      ghost var previous := entries;
      entries := entries + [parsed.value];
      assert entries[..|entries| - 1] == previous;
      i := i + 1;
    }
    assert lines[..i] == lines;
    return Some(services);
  }

  /** One more well-formed line extends the entries by its entry. */
  lemma ParseEntriesSnoc(lines: seq<string>, i: nat, entries: seq<(string, Service)>)
    requires i < |lines| && ParseEntries(lines[..i]) == Some(entries) && ParseServiceLine(lines[i]).Some?
    ensures ParseEntries(lines[..i + 1]) == Some(entries + [ParseServiceLine(lines[i]).value])
  {
    assert lines[..i + 1][..i] == lines[..i];
  }

  /** One malformed line makes the whole load fail. */
  lemma ParseEntriesFails(lines: seq<string>, i: nat)
    requires i < |lines| && ParseServiceLine(lines[i]).None?
    ensures ParseEntries(lines) == None
  {
  }
}
