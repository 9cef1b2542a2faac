/** The boot configuration library: where the text comes from, and the four lookups. */
module BootConfigLibrary {
  import opened Bytes
  import opened Efi
  import opened BootConfig
  import opened BootConfigScan
  import opened BootConfigReader
  import opened Numerals

  datatype Loaded = Loaded(config: string) | Failed(status: Status)

  /** A text that is handed over is used only within the size limit. */
  function Load(text: string): Loaded {
    if |text| == 0 || |text| > MAX_SIZE then Failed(CompromisedData) else Loaded(text)
  }

  /** What a lookup in a whole text answers; a NUL anywhere spoils it. */
  ghost function ValueAnswer(config: string, section: string, key: string): Answer {
    if '\0' in config then Compromised else Lookup(Parse(config), section, key)
  }

  function SectionAnswer(config: string, section: string, index: nat): Answer {
    if '\0' in config then Compromised else EntryAnswer(Parse(config), section, index)
  }

  /** The answers of the lookups for a text that is handed over, whatever it is. */
  ghost function TextValue(text: string, section: string, key: string): Answer {
    match Load(text)
    case Failed(_) => Compromised
    case Loaded(c) => ValueAnswer(c, section, key)
  }

  function TextEntry(text: string, section: string, index: nat): Answer {
    match Load(text)
    case Failed(_) => Compromised
    case Loaded(c) => SectionAnswer(c, section, index)
  }

  function Contents(buffer: array?<char>): (s: string)
    reads buffer
  {
    if buffer == null then "" else buffer[..]
  }

  /** How an answer reaches the caller: the size asked for is the text's with a NUL behind it, and a
      buffer that is too small stays as it was. */
  predicate Delivered(a: Answer, capacity: nat, before: string, after: string, status: Status, size: nat) {
    match a
    case Compromised => status == CompromisedData && size == 0 && after == before
    case Missing => status == NotFound && size == 0 && after == before
    case Found(text) =>
      && size == |text| + 1
      && if capacity < size then status == BufferTooSmall && after == before
         else size <= |before| && status == Success && after == text + ['\0'] + before[size..]
  }

  /** A call with the size the last call reported succeeds with the same text, and no smaller one does. */
  lemma ReportedSizeIsExact(a: Answer, small: nat, retry: nat, b0: string, b1: string, c0: string, c1: string,
                            size: nat, status: Status, retrySize: nat)
    requires Delivered(a, small, b0, b1, BufferTooSmall, size) && Delivered(a, retry, c0, c1, status, retrySize)
    ensures status == Success <==> retry >= size
    ensures status == Success ==> c1[..size] == a.text + ['\0']
  {
  }

  lemma DeliveredText(text: string, before: string, after: string, size: nat)
    requires size == |text| + 1 <= |before| == |after|
    requires forall j :: 0 <= j < |text| ==> after[j] == text[j]
    requires after[|text|] == '\0'
    requires forall j :: size <= j < |before| ==> after[j] == before[j]
    ensures after == text + ['\0'] + before[size..]
  {
  }

  /** Writes a range of the configuration to the caller, as both text lookups do at their end. */
  method Deliver(config: string, start: nat, end: nat, buffer: array?<char>, capacity: nat) returns (status: Status, size: nat)
    requires start <= end <= |config|
    requires buffer == null ==> capacity == 0
    requires buffer != null ==> capacity <= buffer.Length
    modifies buffer
    ensures Delivered(Found(config[start..end]), capacity, old(Contents(buffer)), Contents(buffer), status, size)
  {
    size := end - start + 1;
    if capacity < size {
      return BufferTooSmall, size;
    }
    for i := 0 to size - 1
      invariant forall j :: 0 <= j < i ==> buffer[j] == config[start + j]
      invariant forall j :: i <= j < buffer.Length ==> buffer[j] == old(buffer[j])
    {
      buffer[i] := config[start + i];
    }
    buffer[size - 1] := '\0';
    DeliveredText(config[start..end], old(buffer[..]), buffer[..], size);
    status := Success;
  }

  /** The loop that looks for a NUL. */
  method HasNul(config: string) returns (nul: bool)
    ensures nul <==> '\0' in config
  {
    for i := 0 to |config|
      invariant '\0' !in config[..i]
    {
      if config[i] == '\0' {
        return true;
      }
    }
    assert config[..|config|] == config;
    nul := false;
  }

  class BootConfigLib {
    var buffer: Option<string>
    const hob: Option<string>

    constructor (hob: Option<string>)
      ensures this.hob == hob && buffer == None
    {
      this.hob := hob;
      buffer := None;
    }

    /** The buffer comes before the hand-off block. */
    function GetBootConfig(): (r: Loaded)
      reads this
      ensures r.Loaded? ==> 0 < |r.config| <= MAX_SIZE && Some(r.config) == (if buffer.Some? then buffer else hob)
      ensures r == Failed(NotFound) <==> buffer.None? && hob.None?
    {
      if buffer.Some? then Load(buffer.value)
      else if hob.None? then Failed(NotFound)
      else Load(hob.value)
    }

    /** The text that is handed over, if there is one. */
    function Text(): Option<string>
      reads this
    {
      if buffer.Some? then buffer else hob
    }

    /** A refused text also drops the one set before. */
    method SetBuffer(config: Option<string>) returns (status: Status)
      modifies this
      ensures status == InvalidParameter <==> config.None? || config.value == ""
      ensures status == Success <==> config.Some? && 0 < |config.value| <= MAX_SIZE && '\0' !in config.value
      ensures status == Success || status == InvalidParameter || status == CompromisedData
      ensures buffer == if status == Success then config else None
      ensures status == Success ==> GetBootConfig() == Loaded(config.value)
    {
      buffer := None;
      if config.None? || |config.value| == 0 {
        return InvalidParameter;
      }
      if |config.value| > MAX_SIZE {
        return CompromisedData;
      }
      var nul := HasNul(config.value);
      if nul {
        return CompromisedData;
      }
      buffer := config;
      status := Success;
    }

    /** None stands for a NULL pointer; size is what the caller's size holds afterwards. */
    method GetValue(section: Option<CString>, key: Option<CString>, value: array?<char>, valueSize: Option<nat>)
      returns (status: Status, size: nat)
      requires value != null && valueSize.Some? ==> valueSize.value <= value.Length
      modifies value
      ensures section.None? || key.None? || key.value == "" || valueSize.None? || (valueSize.value > 0 && value == null)
         ==> status == InvalidParameter && Contents(value) == old(Contents(value)) && (valueSize.Some? ==> size == valueSize.value)
      ensures section.Some? && key.Some? && key.value != "" && valueSize.Some? && (valueSize.value == 0 || value != null)
         ==> match old(Text())
             case None => status == NotFound && size == 0 && Contents(value) == old(Contents(value))
             case Some(t) =>
               && Delivered(TextValue(t, section.value, key.value), valueSize.value, old(Contents(value)), Contents(value), status, size)
               && (status == Success ==> '\0' !in TextValue(t, section.value, key.value).text)
    {
      hide Lookup, Parse, Answers;
      if section.None? || key.None? || key.value == "" || valueSize.None? {
        return InvalidParameter, if valueSize.Some? then valueSize.value else 0;
      }
      var capacity := valueSize.value;
      if capacity > 0 && value == null {
        return InvalidParameter, capacity;
      }
      var loaded := GetBootConfig();
      if loaded.Failed? {
        return loaded.status, 0;
      }
      var config := loaded.config;
      var nul := HasNul(config);
      if nul {
        return CompromisedData, 0;
      }
      var found, start, end := FindValue(config, section.value, key.value);
      OneAnswer(Parse(config), section.value, key.value,
                if found == Success then Found(config[start..end]) else if found == NotFound then Missing else Compromised);
      if found != Success {
        return found, 0;
      }
      status, size := Deliver(config, start, end, value, capacity);
    }

    method GetSectionEntry(section: Option<CString>, index: nat, entry: array?<char>, entrySize: Option<nat>)
      returns (status: Status, size: nat)
      requires entry != null && entrySize.Some? ==> entrySize.value <= entry.Length
      modifies entry
      ensures section.None? || entrySize.None? || (entrySize.value > 0 && entry == null)
         ==> status == InvalidParameter && Contents(entry) == old(Contents(entry)) && (entrySize.Some? ==> size == entrySize.value)
      ensures section.Some? && entrySize.Some? && (entrySize.value == 0 || entry != null)
         ==> match old(Text())
             case None => status == NotFound && size == 0 && Contents(entry) == old(Contents(entry))
             case Some(t) =>
               Delivered(TextEntry(t, section.value, index), entrySize.value, old(Contents(entry)), Contents(entry), status, size)
    {
      hide EntryAnswer, Parse;
      if section.None? || entrySize.None? {
        return InvalidParameter, if entrySize.Some? then entrySize.value else 0;
      }
      var capacity := entrySize.value;
      if capacity > 0 && entry == null {
        return InvalidParameter, capacity;
      }
      var loaded := GetBootConfig();
      if loaded.Failed? {
        return loaded.status, 0;
      }
      var config := loaded.config;
      var nul := HasNul(config);
      if nul {
        return CompromisedData, 0;
      }
      var found, start, end := FindEntry(config, section.value, index);
      if found != Success {
        return found, 0;
      }
      status, size := Deliver(config, start, end, entry, capacity);
    }

    /** What a number lookup with a limit comes to: texts of up to 31 characters are numbers exactly if
        they are numerals within the limit. */
    ghost predicate NumberOutcome(section: Option<CString>, key: Option<CString>, given: bool, limit: nat, status: Status, value: nat)
      reads this
    {
      if !given || section.None? || key.None? || key.value == "" then status == InvalidParameter
      else match Text()
        case None => status == NotFound
        case Some(t) =>
          match TextValue(t, section.value, key.value)
          case Compromised => status == CompromisedData
          case Missing => status == NotFound
          case Found(text) =>
            if |text| > 31 then status == BufferTooSmall
            else if IsNumeral(text) && NumeralValue(text) <= limit then status == Success && value == NumeralValue(text)
            else status == CompromisedData
    }

    method GetUint64(section: Option<CString>, key: Option<CString>, given: bool) returns (status: Status, value: uint64)
      ensures NumberOutcome(section, key, given, MAX_UINT64, status, value)
    {
      hide TextValue, IsNumeral, NumeralValue;
      value := 0;
      if !given {
        return InvalidParameter, 0;
      }
      var text := new char[32];
      var size;
      status, size := GetValue(section, key, text, Some(32));
      if status != Success {
        return;
      }
      ghost var v := TextValue(Text().value, section.value, key.value).text;
      assert text[..] == v + ['\0'] + text[size..];
      assert text[..|v|] == v && text[|v|] == '\0';
      var parsed := ParseUint64(text, v);
      if parsed.None? {
        return CompromisedData, 0;
      }
      value := parsed.value;
    }

    method GetUint32(section: Option<CString>, key: Option<CString>, given: bool) returns (status: Status, value: uint32)
      ensures NumberOutcome(section, key, given, MAX_UINT32, status, value)
    {
      hide TextValue, IsNumeral, NumeralValue;
      value := 0;
      if !given {
        return InvalidParameter, 0;
      }
      var parsed;
      status, parsed := GetUint64(section, key, true);
      if status != Success {
        return;
      }
      if parsed > MAX_UINT32 {
        return CompromisedData, 0;
      }
      value := parsed;
    }
  }
}
