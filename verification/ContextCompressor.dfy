/** Content-aware compression of one message: by structure for JSON, by a head-and-tail window
    for logs, by stripping comments for code, by cutting for anything else. */
module ContextCompressor {
  import opened Prelude
  import opened Json

  const ARRAY_KEEP := 5

  const ELLIPSIS := "…"

  const CODE_NOTE := "\n# […truncated]"

  /** `s[:k]` for any k: a negative k counts from the end. */
  function Head(s: string, k: int): (r: string)
    ensures r <= s
    ensures 0 <= k ==> |r| == Min(k, |s|)
  {
    if k >= 0 then s[..Min(k, |s|)] else s[..Max(0, |s| + k)]
  }

  function Trim(s: string, max: int): string {
    if |s| <= max then s else Head(s, max - 1) + ELLIPSIS
  }

  lemma TrimBound(s: string, max: int)
    ensures |Trim(s, max)| <= max <==> 1 <= max || |s| <= max
  {
  }

  // ------------------------------------------------------------ JSON

  function Size(fields: seq<Field>): nat { |Dumps(Obj(fields), COMPACT)| }

  /** The fields, largest value first; equal sizes keep their order. */
  function BySize(fields: seq<Field>): seq<Field> {
    Sort((f: Field) => -(|Dumps(f.value, SPACED)| as real), fields)
  }

  function Keys(fields: seq<Field>): seq<string> {
    seq(|fields|, i requires 0 <= i < |fields| => fields[i].key)
  }

  function Without(fields: seq<Field>, key: string): seq<Field> {
    Filter((f: Field) => f.key != key, fields)
  }

  /** The fields left after the first m keys of the list have been deleted. */
  function Dropped(fields: seq<Field>, keys: seq<string>, m: nat): seq<Field>
    requires m <= |keys|
  {
    if m == 0 then fields else Without(Dropped(fields, keys, m - 1), keys[m - 1])
  }

  /** How many keys the dropping loop deletes before it stops, having deleted m already: it stops
      when the rest fits, when one key or none is left, or when the list is exhausted. */
  function DropCount(fields: seq<Field>, keys: seq<string>, max: int, m: nat): (r: nat)
    requires m <= |keys|
    ensures m <= r <= |keys|
    decreases |keys| - m
  {
    if m == |keys| then m
    else if StopsAfter(fields, keys, max, m + 1) then m + 1
    else DropCount(fields, keys, max, m + 1)
  }

  predicate StopsAfter(fields: seq<Field>, keys: seq<string>, max: int, m: nat)
    requires m <= |keys|
  {
    Size(Dropped(fields, keys, m)) <= max || |Dropped(fields, keys, m)| <= 1
  }

  function DropKeys(fields: seq<Field>, max: int): seq<Field> {
    var keys := Keys(BySize(fields));
    Dropped(fields, keys, DropCount(fields, keys, max, 0))
  }

  method DropLargest(fields: seq<Field>, max: int) returns (pruned: seq<Field>, fits: bool)
    ensures pruned == DropKeys(fields, max)
    ensures fits ==> Size(pruned) <= max
    ensures !fits && fields != [] ==> Size(pruned) > max
  {
    var keys := Keys(BySize(fields));
    pruned := fields;
    fits := false;
    var i := 0;
    while i < |keys|
      invariant 0 <= i <= |keys|
      invariant pruned == Dropped(fields, keys, i)
      invariant DropCount(fields, keys, max, 0) == DropCount(fields, keys, max, i)
      invariant 0 < i ==> Size(pruned) > max
    {
      pruned := Without(pruned, keys[i]);
      i := i + 1;
      if Size(pruned) <= max {
        return pruned, true;
      }
      if |pruned| <= 1 {
        break;
      }
    }
    SortSorts((f: Field) => -(|Dumps(f.value, SPACED)| as real), fields);
    SameMultisetSameMembers(BySize(fields), fields);
  }

  lemma {:induction false} DropCountIsFirst(fields: seq<Field>, keys: seq<string>, max: int, m: nat, k: nat)
    requires m <= |keys| && m < k < DropCount(fields, keys, max, m)
    ensures !StopsAfter(fields, keys, max, k)
    decreases |keys| - m
  {
    hide StopsAfter;
    if m + 1 < k {
      DropCountIsFirst(fields, keys, max, m + 1, k);
    }
  }

  /** When key dropping makes an object fit, no shorter prefix of the deletions would have. */
  lemma DropKeysIsMinimal(fields: seq<Field>, max: int, k: nat)
    requires Size(fields) > max
    requires k < DropCount(fields, Keys(BySize(fields)), max, 0)
    ensures Size(Dropped(fields, Keys(BySize(fields)), k)) > max
  {
    if k > 0 {
      DropCountIsFirst(fields, Keys(BySize(fields)), max, 0, k);
    }
  }

  lemma WithoutMembers(fields: seq<Field>, key: string)
    ensures forall f :: f in Without(fields, key) <==> f in fields && f.key != key
  {
    FilterMembers((f: Field) => f.key != key, fields);
  }

  lemma {:induction false} DroppedMembers(fields: seq<Field>, keys: seq<string>, m: nat)
    requires m <= |keys|
    ensures forall f :: f in Dropped(fields, keys, m) <==> f in fields && f.key !in keys[..m]
  {
    if m > 0 {
      DroppedMembers(fields, keys, m - 1);
      WithoutMembers(Dropped(fields, keys, m - 1), keys[m - 1]);
      assert keys[..m] == keys[..m - 1] + [keys[m - 1]];
    }
  }

  lemma {:induction false} FilterTwice<T>(p: T -> bool, q: T -> bool, both: T -> bool, s: seq<T>)
    requires forall x :: both(x) <==> p(x) && q(x)
    ensures Filter(q, Filter(p, s)) == Filter(both, s)
  {
    if s != [] {
      FilterTwice(p, q, both, s[1..]);
    }
  }

  /** Dropping keys leaves the other fields as they are and in their order. */
  lemma {:induction false} DroppedAt(fields: seq<Field>, keys: seq<string>, m: nat) returns (at: seq<nat>)
    requires m <= |keys|
    ensures TakenAt(Dropped(fields, keys, m), fields, at) && Ascending(at)
    ensures forall i: nat :: i < |fields| ==> (Has(at, i) <==> fields[i].key !in keys[..m])
  {
    DroppedIsFilter(fields, keys, m);
    at := FilterAt((f: Field) => f.key !in keys[..m], fields);
  }

  lemma {:induction false} DroppedIsFilter(fields: seq<Field>, keys: seq<string>, m: nat)
    requires m <= |keys|
    ensures Dropped(fields, keys, m) == Filter((f: Field) => f.key !in keys[..m], fields)
  {
    var both := (f: Field) => f.key !in keys[..m];
    if m == 0 {
      FilterAll(both, fields);
    } else {
      DroppedIsFilter(fields, keys, m - 1);
      var key := keys[m - 1];
      var p, q := (f: Field) => f.key !in keys[..m - 1], (f: Field) => f.key != key;
      assert keys[..m] == keys[..m - 1] + [key];
      FilterTwice(p, q, both, fields);
    }
  }

  /** The values that are deleted are the largest ones: none is smaller than one that stays. */
  lemma LargestAreDropped(fields: seq<Field>, max: int, gone: Field, kept: Field)
    requires Distinct(Keys(fields))
    requires gone in fields && gone !in DropKeys(fields, max)
    requires kept in DropKeys(fields, max)
    ensures |Dumps(gone.value, SPACED)| >= |Dumps(kept.value, SPACED)|
  {
    hide Dumps, DropCount, Dropped, Sort;
    var sorted := BySize(fields);
    var keys := Keys(sorted);
    var m := DropCount(fields, keys, max, 0);
    DroppedMembers(fields, keys, m);
    SortSorts((f: Field) => -(|Dumps(f.value, SPACED)| as real), fields);
    SameMultisetSameMembers(sorted, fields);
    var i :| 0 <= i < m && keys[..m][i] == gone.key;
    assert sorted[i] in fields && sorted[i].key == gone.key;
    KeysAreUnique(fields, sorted[i], gone);
    SortedPrefixIsLargest(sorted, m, i, kept);
  }

  lemma SortedPrefixIsLargest(sorted: seq<Field>, m: nat, i: nat, kept: Field)
    requires SortedBy((f: Field) => -(|Dumps(f.value, SPACED)| as real), sorted)
    requires i < m <= |sorted| && kept in sorted && kept.key !in Keys(sorted)[..m]
    ensures |Dumps(sorted[i].value, SPACED)| >= |Dumps(kept.value, SPACED)|
  {
    var key := (f: Field) => -(|Dumps(f.value, SPACED)| as real);
    var j :| 0 <= j < |sorted| && sorted[j] == kept;
    assert forall a :: 0 <= a < m ==> Keys(sorted)[..m][a] == sorted[a].key;
    assert m <= j;
    assert key(sorted[i]) <= key(sorted[j]);
  }

  lemma KeysAreUnique(fields: seq<Field>, f: Field, g: Field)
    requires Distinct(Keys(fields)) && f in fields && g in fields && f.key == g.key
    ensures f == g
  {
    var i :| 0 <= i < |fields| && fields[i] == f;
    var j :| 0 <= j < |fields| && fields[j] == g;
    assert Keys(fields)[i] == Keys(fields)[j];
  }

  /** The whole pipeline: the first form that fits, or the smallest form cut to size. */
  function CompressJson(parse: string -> Option<Json>, text: string, max: int): string {
    if |text| <= max then text
    else
      match parse(text)
      case None => Trim(text, max)
      case Some(j) =>
        var pruned := Prune(j);
        var short := Summarise(pruned, ARRAY_KEEP);
        if |Dumps(j, COMPACT)| <= max then Dumps(j, COMPACT)
        else if |Dumps(pruned, COMPACT)| <= max then Dumps(pruned, COMPACT)
        else if |Dumps(short, COMPACT)| <= max then Dumps(short, COMPACT)
        else Trim(Dumps(if short.Obj? then Obj(DropKeys(short.fields, max)) else short, COMPACT), max)
  }

  /** The four forms of a value, each smaller in structure than the one before: the value itself,
      pruned, with its arrays summarised, and with its largest keys dropped. */
  function Form(j: Json, k: nat, max: int): Json {
    if k == 0 then j
    else if k == 1 then Prune(j)
    else
      var short := Summarise(Prune(j), ARRAY_KEEP);
      if k >= 3 && short.Obj? then Obj(DropKeys(short.fields, max)) else short
  }

  predicate Fits(j: Json, max: int) { |Dumps(j, COMPACT)| <= max }

  /** The text is cut: its front and an ellipsis, as long as a positive limit allows. */
  ghost predicate IsCut(r: string, text: string, max: int) {
    && |r| >= 1 && r[|r| - 1] == '…' && r[..|r| - 1] <= text
    && (1 <= max ==> |r| == max)
  }

  /** What a caller may expect: a text that fits is returned as it is; of a longer one that parses,
      the first of the four forms that fits, from which a reader gets that form back; and only if
      none fits, or nothing parses, a text that is cut. */
  ghost predicate IsCompression(parse: string -> Option<Json>, text: string, max: int, r: string) {
    if |text| <= max then r == text
    else
      match parse(text)
      case None => IsCut(r, text, max)
      case Some(j) =>
        if Fits(Form(j, 0, max), max) then IsForm(j, 0, max, r)
        else if Fits(Form(j, 1, max), max) then IsForm(j, 1, max, r)
        else if Fits(Form(j, 2, max), max) then IsForm(j, 2, max, r)
        else if Fits(Form(j, 3, max), max) then IsForm(j, 3, max, r)
        else IsCut(r, Dumps(Form(j, 3, max), COMPACT), max)
  }

  ghost predicate IsForm(j: Json, k: nat, max: int, r: string) {
    |r| <= max && Read(r) == Some(Form(j, k, max)) && r == Dumps(Form(j, k, max), COMPACT)
    && r != "" && r[|r| - 1] != '…'
  }

  lemma TrimIsCut(text: string, max: int)
    requires |text| > max
    ensures IsCut(Trim(text, max), text, max)
  {
    var front := Head(text, max - 1);
    assert (front + ELLIPSIS)[..|front + ELLIPSIS| - 1] == front;
  }

  lemma DumpsEnd(j: Json)
    ensures var s := Dumps(j, COMPACT); s != "" && s[|s| - 1] != '…'
  {
  }

  lemma FormIsForm(j: Json, k: nat, max: int)
    requires Fits(Form(j, k, max), max)
    ensures IsForm(j, k, max, Dumps(Form(j, k, max), COMPACT))
  {
    ReadDumps(Form(j, k, max), COMPACT);
    DumpsEnd(Form(j, k, max));
  }

  lemma CompressionIsExact(parse: string -> Option<Json>, text: string, max: int)
    ensures IsCompression(parse, text, max, CompressJson(parse, text, max))
  {
    hide Prune, Summarise, Dumps, DropKeys, Trim, IsForm, IsCut;
    if |text| > max {
      match parse(text)
      case None => TrimIsCut(text, max);
      case Some(j) =>
        if Fits(Form(j, 0, max), max) {
          FormIsForm(j, 0, max);
        } else if Fits(Form(j, 1, max), max) {
          FormIsForm(j, 1, max);
        } else if Fits(Form(j, 2, max), max) {
          FormIsForm(j, 2, max);
        } else if Fits(Form(j, 3, max), max) {
          FormIsForm(j, 3, max);
          FittingIsUntrimmed(Dumps(Form(j, 3, max), COMPACT), max);
        } else {
          TrimIsCut(Dumps(Form(j, 3, max), COMPACT), max);
        }
    }
  }

  lemma FittingIsUntrimmed(s: string, max: int)
    requires |s| <= max
    ensures Trim(s, max) == s
  {
  }

  method CompressJsonContent(parse: string -> Option<Json>, text: string, max: int) returns (r: string)
    ensures IsCompression(parse, text, max, r)
    ensures r == CompressJson(parse, text, max)
  {
    CompressionIsExact(parse, text, max);
    if |text| <= max {
      return text;
    }
    var parsed := parse(text);
    if parsed.None? {
      return Trim(text, max);
    }
    var obj := parsed.value;
    var stage := Dumps(obj, COMPACT);
    if |stage| <= max {
      return stage;
    }
    obj := Prune(obj);
    stage := Dumps(obj, COMPACT);
    if |stage| <= max {
      return stage;
    }
    obj := Summarise(obj, ARRAY_KEEP);
    stage := Dumps(obj, COMPACT);
    if |stage| <= max {
      return stage;
    }
    if obj.Obj? {
      var pruned, fits := DropLargest(obj.fields, max);
      if fits {
        return Dumps(Obj(pruned), COMPACT);
      }
      obj := Obj(pruned);
    }
    return Trim(Dumps(obj, COMPACT), max);
  }

  /** The result stays within the limit exactly when the limit is positive or nothing had to be
      done: for a limit of zero or less the appended ellipsis alone is too long. */
  lemma CompressJsonBound(parse: string -> Option<Json>, text: string, max: int)
    ensures |CompressJson(parse, text, max)| <= max <==> 1 <= max || |text| <= max
  {
    if |text| > max {
      match parse(text)
      case None => TrimBound(text, max);
      case Some(j) =>
        var short := Summarise(Prune(j), ARRAY_KEEP);
        TrimBound(Dumps(if short.Obj? then Obj(DropKeys(short.fields, max)) else short, COMPACT), max);
    }
  }

  // ------------------------------------------------------------ code, logs, routing

  /** Comments stripped and blank lines collapsed if that is enough; otherwise the cut original
      with a note. `strip` stands for the regular expressions. */
  function CompressCode(strip: string -> string, text: string, max: int): string {
    if |text| <= max then text
    else if |strip(text)| <= max then strip(text)
    else Head(text, max) + CODE_NOTE
  }

  function JoinLines(lines: seq<string>): string {
    if lines == [] then "" else if |lines| == 1 then lines[0] else lines[0] + "\n" + JoinLines(lines[1..])
  }

  /** A head and a tail window of the lines, joined; cut if still too long. */
  function CompressLog(split: string -> seq<string>, text: string, max: int): string {
    if |text| <= max then text
    else
      var lines := split(text);
      var window := Max(3, max / 200);
      if window * 2 >= |lines| then Head(text, max)
      else
        var note := "[… " + Decimal(|lines| - window * 2) + " lines omitted …]";
        var result := JoinLines(lines[..window] + [note] + lines[|lines| - window..]);
        if |result| <= max then result else Head(result, max)
  }

  datatype Kind = JsonText | Code | Log | Plain

  /** The parts of the pipeline that are regular expressions or library calls. */
  datatype Tools = Tools(detect: string -> Kind, parse: string -> Option<Json>,
                         strip: string -> string, split: string -> seq<string>)

  function CompressMessage(t: Tools, content: string, max: int): string {
    if content == "" || |content| <= max then content
    else
      match t.detect(content)
      case JsonText => CompressJson(t.parse, content, max)
      case Code => CompressCode(t.strip, content, max)
      case Log => CompressLog(t.split, content, max)
      case Plain => Head(content, max) + ELLIPSIS
  }

  lemma CompressLogBound(split: string -> seq<string>, text: string, max: int)
    ensures |CompressLog(split, text, max)| <= max <==> 0 <= max
  {
  }

  lemma {:induction false} JoinedLines(a: seq<string>, b: seq<string>)
    requires a != [] && b != []
    ensures JoinLines(a + b) == JoinLines(a) + "\n" + JoinLines(b)
  {
    if |a| == 1 {
      assert (a + b)[1..] == b;
    } else {
      assert (a + b)[1..] == a[1..] + b;
      JoinedLines(a[1..], b);
    }
  }

  /** The text begins with the first w lines and ends with the last w. */
  ghost predicate HasBothEnds(s: string, lines: seq<string>, w: nat)
    requires w <= |lines|
  {
    var head, tail := JoinLines(lines[..w]), JoinLines(lines[|lines| - w..]);
    head <= s && |tail| <= |s| && s[|s| - |tail|..] == tail
  }

  /** What is left of a log that does not fit: its front, if it has few lines, or its first and last
      lines around a note, cut to the limit if they do not fit either. */
  ghost predicate IsLogWindow(lines: seq<string>, text: string, max: int, r: string) {
    var w := Max(3, max / 200);
    if 2 * w >= |lines| then r == Head(text, max)
    else exists s :: HasBothEnds(s, lines, w) && (if |s| <= max then r == s else r == Head(s, max))
  }

  lemma LogWindow(split: string -> seq<string>, text: string, max: int)
    requires |text| > max
    ensures IsLogWindow(split(text), text, max, CompressLog(split, text, max))
  {
    hide JoinLines, HasBothEnds, Head;
    var lines, w := split(text), Max(3, max / 200);
    if 2 * w < |lines| {
      var note := "[… " + Decimal(|lines| - w * 2) + " lines omitted …]";
      EndsAround(lines, w, note);
      var s := JoinLines(lines[..w] + [note] + lines[|lines| - w..]);
      assert HasBothEnds(s, lines, w);
    }
  }

  lemma EndsAround(lines: seq<string>, w: nat, note: string)
    requires 1 <= w <= |lines|
    ensures HasBothEnds(JoinLines(lines[..w] + [note] + lines[|lines| - w..]), lines, w)
  {
    hide JoinLines;
    var head, tail := lines[..w], lines[|lines| - w..];
    JoinedLines(head + [note], tail);
    JoinedLines(head, [note]);
    var front, back := JoinLines(head) + "\n" + JoinLines([note]) + "\n", JoinLines(tail);
    assert JoinLines(head + [note] + tail) == front + back;
    assert (front + back)[|front|..] == back;
    assert JoinLines(head) <= front;
  }

  /** What the router makes of content that does not fit: the compression for its kind; code without
      its comments, or its front and a note; and the front of prose with an ellipsis. */
  lemma CompressMessageMeaning(t: Tools, content: string, max: int)
    requires content != "" && |content| > max
    ensures var r := CompressMessage(t, content, max);
            match t.detect(content)
            case JsonText => IsCompression(t.parse, content, max, r)
            case Log => IsLogWindow(t.split(content), content, max, r)
            case Code => if |t.strip(content)| <= max then r == t.strip(content) else IsFrontWith(r, content, max, CODE_NOTE)
            case Plain => IsFrontWith(r, content, max, ELLIPSIS)
  {
    hide CompressJson, CompressLog, IsCompression, IsLogWindow;
    match t.detect(content)
    case JsonText => CompressionIsExact(t.parse, content, max);
    case Log => LogWindow(t.split, content, max);
    case _ =>
      var front := Head(content, max);
      assert (front + CODE_NOTE)[|front|..] == CODE_NOTE && (front + ELLIPSIS)[|front|..] == ELLIPSIS;
      assert (front + CODE_NOTE)[..|front|] == front && (front + ELLIPSIS)[..|front|] == front;
  }

  /** The front of the text, as long as a limit that is not negative allows, with a note behind it. */
  ghost predicate IsFrontWith(r: string, text: string, max: int, note: string) {
    && |r| >= |note| && r[|r| - |note|..] == note && r[..|r| - |note|] <= text
    && (0 <= max ==> |r| == max + |note|)
  }

  /** The router promises a version within the limit. For content that does not fit, it keeps that
      promise for JSON with a positive limit, for logs with a limit that is not negative, and for
      code once stripping is enough; cut code and cut prose exceed it by the note appended. */
  lemma CompressMessageBound(t: Tools, content: string, max: int)
    ensures |CompressMessage(t, content, max)| <= max
            <==> (|| |content| <= max
                  || (content != ""
                      && match t.detect(content)
                         case JsonText => 1 <= max
                         case Log => 0 <= max
                         case Code => |t.strip(content)| <= max
                         case Plain => false))
    ensures 1 <= max ==> |CompressMessage(t, content, max)| <= max + |CODE_NOTE|
  {
    if |content| > max {
      match t.detect(content)
      case JsonText => CompressJsonBound(t.parse, content, max);
      case Code =>
      case Log => CompressLogBound(t.split, content, max);
      case Plain =>
    }
  }
}
