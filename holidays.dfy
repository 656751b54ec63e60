/** The public-holiday list typed into the settings form: split on commas,
    trim each piece, keep the pieces that look like `YYYY-MM-DD`
    (src/App.jsx:133; the display repeats it at src/App.jsx:347). */
module Holidays {
  import opened Text
  import opened Calendar

  /** `.map(d => d.trim())`. */
  function TrimAll(parts: seq<string>): seq<string>
  {
    seq(|parts|, i requires 0 <= i < |parts| => Trim(parts[i]))
  }

  /** `.filter(d => /^\d{4}-\d{2}-\d{2}$/.test(d))`, keeping the order. */
  function KeepDateKeys(items: seq<string>): (r: seq<string>)
    ensures |r| <= |items|
    ensures forall x :: x in r <==> x in items && IsDateKey(x)
  {
    if items == [] then []
    else (if IsDateKey(items[0]) then [items[0]] else []) + KeepDateKeys(items[1..])
  }

  /** The parsed list of public holidays. */
  function ParsePublicHolidays(input: string): seq<string> {
    KeepDateKeys(TrimAll(Split(input, ',')))
  }

  /** A date is listed exactly when it is well formed and some
      comma-separated piece of the input is that date up to surrounding
      whitespace. */
  lemma ParsedHolidayMembership(input: string, x: string)
    ensures x in ParsePublicHolidays(input) <==>
      IsDateKey(x) && exists p :: p in Split(input, ',') && Trim(p) == x
  {
    var parts := Split(input, ',');
    var trimmed := TrimAll(parts);
    if IsDateKey(x) && exists p :: p in parts && Trim(p) == x {
      var p :| p in parts && Trim(p) == x;
      var i :| 0 <= i < |parts| && parts[i] == p;
      assert trimmed[i] == x;
    }
  }

  /** A key has no whitespace at either end, so trim leaves it alone. */
  lemma TrimKeepsDateKey(k: string)
    requires IsDateKey(k)
    ensures Trim(k) == k
  {
    TrimKeepsUnspaced(k);
  }

  /** A list that holds only well-formed keys survives the filter whole. */
  lemma {:induction false} KeepAllDateKeys(items: seq<string>)
    requires forall x :: x in items ==> IsDateKey(x)
    ensures KeepDateKeys(items) == items
  {
    if items != [] {
      assert forall x :: x in items[1..] ==> x in items;
      KeepAllDateKeys(items[1..]);
      assert items == [items[0]] + items[1..];
    }
  }

  /** Writing well-formed keys separated by commas and parsing the text
      gives the same keys back, in the same order. */
  lemma ParseJoinedHolidays(keys: seq<string>)
    requires |keys| >= 1
    requires forall k :: k in keys ==> IsDateKey(k)
    ensures ParsePublicHolidays(Join(keys, ',')) == keys
  {
    forall k | k in keys ensures ',' !in k {
      DateKeyHasNoComma(k);
    }
    SplitJoin(keys, ',');
    assert Split(Join(keys, ','), ',') == keys;
    TrimAllKeys(keys);
    KeepAllDateKeys(keys);
  }

  lemma DateKeyHasNoComma(k: string)
    requires IsDateKey(k)
    ensures ',' !in k
  {
    forall j | 0 <= j < |k| ensures k[j] != ',' {
      assert j == 4 || j == 7 || IsDigit(k[j]);
    }
  }

  lemma TrimAllKeys(keys: seq<string>)
    requires forall k :: k in keys ==> IsDateKey(k)
    ensures TrimAll(keys) == keys
  {
    var trimmed := TrimAll(keys);
    forall i | 0 <= i < |keys| ensures trimmed[i] == keys[i] {
      TrimKeepsDateKey(keys[i]);
    }
  }
}
