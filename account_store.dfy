/** The account list: the credential file's text split into lines, each line
    trimmed, blank lines dropped (index.js:27-30), and each remaining entry
    split on `|` into private key and account id (index.js:54). */
module AccountStore {
  import opened Text

  /** `const [PRIVATE_KEY, ACCOUNT_ID] = value.split("|")`: the account id is
      undefined (`None`) when the entry has no `|` at all. */
  datatype Credential = Credential(privateKey: string, accountId: Option<string>)

  /** `.map((a) => a.trim()).filter((a) => !!a)`: trim each line and keep the
      ones that are not empty afterwards. */
  function KeepNonBlank(lines: seq<string>): (r: seq<string>)
    ensures |r| <= |lines|
    ensures forall i :: 0 <= i < |r| ==> r[i] != [] && IsTrimmed(r[i])
  {
    if lines == [] then [] else Kept(lines[0]) + KeepNonBlank(lines[1..])
  }

  /** What one line contributes to the account list. */
  function Kept(line: string): (r: seq<string>)
    ensures |r| <= 1
    ensures forall i :: 0 <= i < |r| ==> r[i] != [] && IsTrimmed(r[i])
  {
    var t := Trim(line);
    TrimShape(line);
    if t != [] then [t] else []
  }

  /** A line contributes nothing exactly when it is all white space. */
  lemma KeptEmptyIff(line: string)
    ensures Kept(line) == [] <==> AllSpace(line)
  {
    TrimEmptyIffAllSpace(line);
  }

  /** The account list read from the file text. */
  function ParseAccountList(text: string): seq<string> {
    KeepNonBlank(Split(text, '\n'))
  }

  /** One line on its own contributes its trimmed text, or nothing when it
      is blank. */
  lemma KeepNonBlankLine(line: string)
    ensures KeepNonBlank([line]) == if AllSpace(line) then [] else [Trim(line)]
  {
    TrimEmptyIffAllSpace(line);
    assert [line][1..] == [];
  }

  /** Keeping the non-blank lines of two stretches of the file one after the
      other is keeping those of the whole file: the filter keeps file order. */
  lemma {:induction false} KeepNonBlankAppend(a: seq<string>, b: seq<string>)
    ensures KeepNonBlank(a + b) == KeepNonBlank(a) + KeepNonBlank(b)
  {
    if a == [] {
      assert a + b == b;
    } else {
      assert (a + b)[0] == a[0];
      assert (a + b)[1..] == a[1..] + b;
      KeepNonBlankAppend(a[1..], b);
    }
  }

  /** The filter yields nothing exactly when every line is blank. */
  lemma {:induction false} KeepNonBlankEmptyIff(lines: seq<string>)
    ensures KeepNonBlank(lines) == [] <==> forall i :: 0 <= i < |lines| ==> AllSpace(lines[i])
  {
    if lines != [] {
      KeepNonBlankEmptyIff(lines[1..]);
      KeptEmptyIff(lines[0]);
      assert forall i :: 1 <= i < |lines| ==> lines[i] == lines[1..][i - 1];
    }
  }

  /** A file made of separator-free lines joined by newlines gives exactly
      the trimmed non-blank ones among those lines. */
  lemma ParseAccountListOfLines(lines: seq<string>)
    requires |lines| >= 1
    requires forall i :: 0 <= i < |lines| ==> '\n' !in lines[i]
    ensures ParseAccountList(Join(lines, '\n')) == KeepNonBlank(lines)
  {
    SplitJoin(lines, '\n');
  }

  /** Every entry of the account list is non-empty, already trimmed and lies
      on one line. */
  lemma ParseAccountListEntries(text: string)
    ensures forall i :: 0 <= i < |ParseAccountList(text)| ==>
      var e := ParseAccountList(text)[i];
      e != [] && Trim(e) == e && '\n' !in e
  {
    var r := ParseAccountList(text);
    forall i | 0 <= i < |r| ensures Trim(r[i]) == r[i] && '\n' !in r[i] {
      var e := r[i];
      assert TrimStart(e) == e;
      assert TrimEnd(e) == e;
      var lines := Split(text, '\n');
      EntryFromSomeLine(lines, i);
      var j :| 0 <= j < |lines| && e == Trim(lines[j]);
      TrimKeepsOut(lines[j], '\n');
    }
  }

  /** Every entry is the trimmed text of some line of the file. */
  lemma {:induction false} EntryFromSomeLine(lines: seq<string>, i: nat)
    requires i < |KeepNonBlank(lines)|
    ensures exists j :: 0 <= j < |lines| && KeepNonBlank(lines)[i] == Trim(lines[j])
  {
    var k, rest := Kept(lines[0]), KeepNonBlank(lines[1..]);
    assert KeepNonBlank(lines) == k + rest;
    if i < |k| {
      assert KeepNonBlank(lines)[i] == k[i];
    } else {
      assert KeepNonBlank(lines)[i] == rest[i - |k|];
      EntryFromSomeLine(lines[1..], i - |k|);
      var j :| 0 <= j < |lines| - 1 && rest[i - |k|] == Trim(lines[1..][j]);
      assert lines[1..][j] == lines[j + 1];
      assert KeepNonBlank(lines)[i] == Trim(lines[j + 1]);
    }
  }

  /** The account list is empty exactly when the whole file is white space
      (newlines included). */
  lemma ParseAccountListEmptyIff(text: string)
    ensures ParseAccountList(text) == [] <==> AllSpace(text)
  {
    var lines := Split(text, '\n');
    KeepNonBlankEmptyIff(lines);
    JoinSplit(text, '\n');
    JoinAllSpace(lines, '\n');
  }

  /** Joining with a white-space separator is all white space exactly when
      every piece is. */
  lemma {:induction false} JoinAllSpace(pieces: seq<string>, d: char)
    requires |pieces| >= 1 && IsJsSpace(d)
    ensures AllSpace(Join(pieces, d)) <==> forall i :: 0 <= i < |pieces| ==> AllSpace(pieces[i])
  {
    if |pieces| > 1 {
      JoinAllSpace(pieces[1..], d);
      var a, b := pieces[0], Join(pieces[1..], d);
      var j := a + [d] + b;
      assert forall k :: 0 <= k < |a| ==> j[k] == a[k];
      assert forall k :: 0 <= k < |b| ==> j[|a| + 1 + k] == b[k];
      assert forall i :: 1 <= i < |pieces| ==> pieces[i] == pieces[1..][i - 1];
      if AllSpace(a) && AllSpace(b) {
        forall k | 0 <= k < |j| ensures IsJsSpace(j[k]) {
          if k < |a| {
          } else if k == |a| {
          } else {
            assert j[k] == b[k - |a| - 1];
          }
        }
      }
    }
  }

  /** index.js:54, the destructuring of `value.split("|")`. */
  function SplitAccountLine(line: string): Credential {
    var fields := Split(line, '|');
    Credential(fields[0], if |fields| > 1 then Some(fields[1]) else None)
  }

  /** The private key is the text before the first `|` (all of the entry
      when there is none); the account id is the text between the first and
      the second `|` (or the end), and is absent exactly when the entry has
      no `|`. */
  lemma SplitAccountLineFields(line: string)
    ensures var c := SplitAccountLine(line);
      var n := |c.privateKey|;
      n <= |line| && c.privateKey == line[..n] && '|' !in c.privateKey
      && (c.accountId.None? <==> '|' !in line)
      && (c.accountId.Some? ==>
            var id := c.accountId.value;
            n + 1 + |id| <= |line| && line[n] == '|' && line[n + 1..n + 1 + |id|] == id
            && '|' !in id && (n + 1 + |id| == |line| || line[n + 1 + |id|] == '|'))
  {
    var fields := Split(line, '|');
    JoinSplit(line, '|');
    var key := fields[0];
    if |fields| == 1 {
      assert line == key;
    } else {
      var rest := Join(fields[1..], '|');
      assert line == key + ['|'] + rest;
      assert line[..|key|] == key;
      assert line[|key|] == '|';
      var id := fields[1];
      if |fields| == 2 {
        assert rest == id;
      } else {
        assert rest == id + ['|'] + Join(fields[2..], '|');
        assert line[|key| + 1 + |id|] == rest[|id|];
      }
      assert line[|key| + 1..] == rest;
      assert line[|key| + 1..|key| + 1 + |id|] == rest[..|id|];
      assert '|' in line by { assert line[|key|] == '|'; }
    }
  }

  /** Conversely, `key|id` followed by nothing or by further `|` fields
      splits into that key and that id: further fields are ignored. */
  lemma SplitAccountLineOf(key: string, id: string, rest: string)
    requires '|' !in key && '|' !in id
    requires rest == [] || rest[0] == '|'
    ensures SplitAccountLine(key + ['|'] + id + rest) == Credential(key, Some(id))
  {
    var line := key + ['|'] + id + rest;
    var tail := ['|'] + id + rest;
    assert line == key + tail;
    SplitFreePrefix(key, tail, '|');
    assert tail[1..] == id + rest;
    SplitFreePrefix(id, rest, '|');
    assert Split(rest, '|')[0] == [] by {
      if rest != [] {
        assert rest[0] == '|';
      }
    }
    assert id + [] == id && key + [] == key;
  }

  /** An entry without `|` is all private key and has no account id. */
  lemma SplitAccountLineNoBar(line: string)
    requires '|' !in line
    ensures SplitAccountLine(line) == Credential(line, None)
  {
    SplitFreePrefix(line, [], '|');
    assert line + [] == line;
  }
}
