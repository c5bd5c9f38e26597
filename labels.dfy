/** The label commands of pkg/cibot/label.go: turning a comment line such as
    `/remove-kind bug feature` into whole label names, choosing which of them
    to add to or remove from an issue or pull request, and building the
    comma-separated label string the handlers send back. */
module Labels {
  import opened Base
  import opened GoStrings

  /** gitee.Label; the bot reads only its Name. */
  datatype Label = Label(name: string)

  /** The names of some labels, in order. */
  function Names(labels: seq<Label>): (names: seq<string>)
    ensures |names| == |labels|
    ensures forall i :: 0 <= i < |labels| ==> names[i] == labels[i].name
  {
    seq(|labels|, i requires 0 <= i < |labels| => labels[i].name)
  }

  /** The words of a comment line: split on single spaces after trimming. */
  function Tokens(comment: string): (tokens: seq<string>)
    ensures |tokens| >= 1
  {
    Split(TrimSpace(comment), ' ')
  }

  /** The label group a command names: its first `/` and first `remove-`
      removed. */
  function LabelGroup(command: string): string
  {
    ReplaceFirst(ReplaceFirst(command, "/", ""), "remove-", "")
  }

  /** The whole labels made from the group and the words `1 .. n - 1`. */
  function WholeLabels(group: string, tokens: seq<string>, n: nat): set<string>
    requires n <= |tokens|
  {
    if n <= 1 then {} else WholeLabels(group, tokens, n - 1) + {group + "/" + tokens[n - 1]}
  }

  /** The whole labels a comment line names. */
  function CommandLabels(comment: string): set<string>
  {
    var tokens := Tokens(comment);
    WholeLabels(LabelGroup(tokens[0]), tokens, |tokens|)
  }

  /** Every whole label is the group, a slash and one of the words after the
      first, and each such word gives one. */
  lemma {:induction false} WholeLabelsMembership(group: string, tokens: seq<string>, n: nat, l: string)
    requires n <= |tokens|
    ensures l in WholeLabels(group, tokens, n) <==>
      exists i :: 1 <= i < n && l == group + "/" + tokens[i]
  {
    if n > 1 {
      WholeLabelsMembership(group, tokens, n - 1, l);
    }
  }

  /** `GetLabelsMap`: the map from each whole label of the comment to itself. */
  method GetLabelsMap(comment: string) returns (mapOfLabels: map<string, string>)
    ensures mapOfLabels.Keys == CommandLabels(comment)
    ensures forall l :: l in mapOfLabels ==> mapOfLabels[l] == l
  {
    mapOfLabels := map[];
    var substrings := Split(TrimSpace(comment), ' ');
    var labelGroup := "";
    for i := 0 to |substrings|
      invariant i > 0 ==> labelGroup == LabelGroup(substrings[0])
      invariant forall l :: l in mapOfLabels <==> l in WholeLabels(labelGroup, substrings, i)
      invariant forall l :: l in mapOfLabels ==> mapOfLabels[l] == l
    {
      if i == 0 {
        labelGroup := LabelGroup(substrings[i]);
      } else {
        var wholeLabel := labelGroup + "/" + substrings[i];
        mapOfLabels := mapOfLabels[wholeLabel := wholeLabel];
      }
    }
    assert substrings == Tokens(comment);
    assert mapOfLabels.Keys == WholeLabels(labelGroup, substrings, |substrings|);
  }

  /** Whether some label is called `l` (the inner loops of both filters). */
  method ContainsName(labels: seq<Label>, l: string) returns (existing: bool)
    ensures existing <==> l in Names(labels)
  {
    existing := false;
    for j := 0 to |labels|
      invariant !existing
      invariant forall k :: 0 <= k < j ==> labels[k].name != l
    {
      if l == labels[j].name {
        existing := true;
        break;
      }
    }
  }

  /** `GetListOfAddLabels`: the labels of the command that exist in the
      repository and are not yet on the item, each once, in the map's order. */
  method GetListOfAddLabels(mapOfAddLabels: map<string, string>, repoLabels: seq<Label>,
                            itemLabels: seq<Label>) returns (listOfAddLabels: seq<string>)
    ensures Distinct(listOfAddLabels)
    ensures forall l :: l in listOfAddLabels <==>
      l in mapOfAddLabels && l in Names(repoLabels) && l !in Names(itemLabels)
  {
    listOfAddLabels := [];
    var unvisited := mapOfAddLabels.Keys;
    while unvisited != {}
      invariant unvisited <= mapOfAddLabels.Keys
      invariant Distinct(listOfAddLabels)
      invariant forall l :: l in listOfAddLabels <==>
        l in mapOfAddLabels && l !in unvisited && l in Names(repoLabels) && l !in Names(itemLabels)
      decreases |unvisited|
    {
      var l :| l in unvisited;
      unvisited := unvisited - {l};
      var existingInRepo := ContainsName(repoLabels, l);
      if !existingInRepo {
        continue;
      }
      var existingInItem := ContainsName(itemLabels, l);
      if existingInItem {
        continue;
      }
      listOfAddLabels := listOfAddLabels + [l];
    }
  }

  /** `GetListOfRemoveLabels`: the labels of the command that are on the item,
      each once, in the map's order. */
  method GetListOfRemoveLabels(mapOfRemoveLabels: map<string, string>, itemLabels: seq<Label>)
    returns (listOfRemoveLabels: seq<string>)
    ensures Distinct(listOfRemoveLabels)
    ensures forall l :: l in listOfRemoveLabels <==> l in mapOfRemoveLabels && l in Names(itemLabels)
  {
    listOfRemoveLabels := [];
    var unvisited := mapOfRemoveLabels.Keys;
    while unvisited != {}
      invariant unvisited <= mapOfRemoveLabels.Keys
      invariant Distinct(listOfRemoveLabels)
      invariant forall l :: l in listOfRemoveLabels <==>
        l in mapOfRemoveLabels && l !in unvisited && l in Names(itemLabels)
      decreases |unvisited|
    {
      var l :| l in unvisited;
      unvisited := unvisited - {l};
      var existingInItem := ContainsName(itemLabels, l);
      if !existingInItem {
        continue;
      }
      listOfRemoveLabels := listOfRemoveLabels + [l];
    }
  }

  /** `/remove-kind` names the group `kind`, whatever follows `remove-`. */
  lemma RemoveCommandGroup(command: string, group: string)
    requires command == "/remove-" + group
    ensures LabelGroup(command) == group
  {
    assert command == "/" + ("remove-" + group);
    RemovePrefix("/", "remove-" + group);
    RemovePrefix("remove-", group);
  }

  /** `/kind` names the group `kind` too, unless the group itself contains
      `remove-`. */
  lemma AddCommandGroup(command: string, group: string)
    requires command == "/" + group && !Contains(group, "remove-")
    ensures LabelGroup(command) == group
  {
    RemovePrefix("/", group);
    ReplaceAbsent(group, "remove-", "");
  }

  lemma {:induction false} WholeLabelsSize(group: string, tokens: seq<string>, n: nat)
    requires 1 <= n <= |tokens|
    ensures |WholeLabels(group, tokens, n)| <= n - 1
  {
    if n > 1 {
      WholeLabelsSize(group, tokens, n - 1);
    }
  }

  /** Repeated words collapse, so a command names at most one label per word
      after the first, and none when it has a single word. */
  lemma CommandLabelsSize(comment: string)
    ensures |CommandLabels(comment)| <= |Tokens(comment)| - 1
    ensures |Tokens(comment)| == 1 ==> CommandLabels(comment) == {}
  {
    var tokens := Tokens(comment);
    WholeLabelsSize(LabelGroup(tokens[0]), tokens, |tokens|);
  }

  /** A comment written as words separated by single spaces gives back
      exactly those words. */
  lemma TokensOfWords(words: seq<string>)
    requires |words| >= 1 && forall w :: w in words ==> ' ' !in w
    requires var c := Join(words, ' '); |c| > 0 && !IsSpace(c[0]) && !IsSpace(c[|c| - 1])
    ensures Tokens(Join(words, ' ')) == words
  {
    TrimSpaceUnchanged(Join(words, ' '));
    SplitJoin(words, ' ');
  }

  /** The words of a command followed by space-separated words. */
  lemma TokensOfCommand(command: string, labels: seq<string>)
    requires |command| > 0 && !IsSpace(command[0]) && ' ' !in command
    requires forall l :: l in labels ==> ' ' !in l
    requires |labels| > 0 ==> var last := labels[|labels| - 1]; |last| > 0 && !IsSpace(last[|last| - 1])
    requires |labels| == 0 ==> !IsSpace(command[|command| - 1])
    ensures Tokens(Join([command] + labels, ' ')) == [command] + labels
  {
    var words := [command] + labels;
    var c := Join(words, ' ');
    JoinEnds(words, ' ');
    var last := words[|words| - 1];
    assert last == if |labels| > 0 then labels[|labels| - 1] else command;
    assert c[0] == command[0];
    assert c[|c| - 1] == last[|last| - 1];
    assert forall w :: w in words ==> ' ' !in w;
    TokensOfWords(words);
  }

  /** The labels `group/word`, one per distinct word. */
  function Grouped(group: string, words: seq<string>): set<string>
  {
    set w | w in words :: group + "/" + w
  }

  /** The whole labels of a list of words: one per distinct word after the
      first. */
  lemma WholeLabelsOfWords(group: string, words: seq<string>)
    requires |words| >= 1
    ensures WholeLabels(group, words, |words|) == Grouped(group, words[1..])
  {
    forall x ensures x in WholeLabels(group, words, |words|) <==> x in Grouped(group, words[1..]) {
      WholeLabelsMembership(group, words, |words|, x);
      if x in Grouped(group, words[1..]) {
        var k :| 0 <= k < |words| - 1 && x == group + "/" + words[1..][k];
        assert words[k + 1] == words[1..][k];
      }
    }
  }

  /** A command followed by space-separated words names exactly the labels
      `group/word`, one per distinct word. */
  lemma CommandLabelsOfWords(command: string, group: string, labels: seq<string>)
    requires LabelGroup(command) == group
    requires |command| > 0 && !IsSpace(command[0]) && ' ' !in command
    requires forall l :: l in labels ==> ' ' !in l
    requires |labels| > 0 ==> var last := labels[|labels| - 1]; |last| > 0 && !IsSpace(last[|last| - 1])
    requires |labels| == 0 ==> !IsSpace(command[|command| - 1])
    ensures CommandLabels(Join([command] + labels, ' ')) == Grouped(group, labels)
  {
    var words := [command] + labels;
    var c := Join(words, ' ');
    TokensOfCommand(command, labels);
    assert CommandLabels(c) == WholeLabels(group, words, |words|);
    WholeLabelsOfWords(group, words);
    assert words[1..] == labels;
  }

  /** `/remove-<group> <words>` removes the labels `<group>/<word>`. */
  lemma RemoveCommandLabels(group: string, labels: seq<string>)
    requires ' ' !in group && forall l :: l in labels ==> ' ' !in l
    requires |labels| > 0 && var last := labels[|labels| - 1]; |last| > 0 && !IsSpace(last[|last| - 1])
    ensures CommandLabels(Join(["/remove-" + group] + labels, ' ')) == Grouped(group, labels)
  {
    RemoveCommandWord(group);
    CommandLabelsOfWords("/remove-" + group, group, labels);
  }

  /** `/remove-<group>` is a command word naming the group. */
  lemma RemoveCommandWord(group: string)
    requires ' ' !in group
    ensures var command := "/remove-" + group;
      && LabelGroup(command) == group
      && |command| > 0 && !IsSpace(command[0]) && ' ' !in command
  {
    RemoveCommandGroup("/remove-" + group, group);
    SlashCommand("/remove-", group);
  }

  /** `/<group> <words>` adds the labels `<group>/<word>`. */
  lemma AddCommandLabels(group: string, labels: seq<string>)
    requires ' ' !in group && !Contains(group, "remove-") && forall l :: l in labels ==> ' ' !in l
    requires |labels| > 0 && var last := labels[|labels| - 1]; |last| > 0 && !IsSpace(last[|last| - 1])
    ensures CommandLabels(Join(["/" + group] + labels, ' ')) == Grouped(group, labels)
  {
    var command := "/" + group;
    AddCommandGroup(command, group);
    SlashCommand("/", group);
    CommandLabelsOfWords(command, group, labels);
  }

  /** A command word: a prefix starting with `/` and a group, neither holding
      a space. */
  lemma SlashCommand(prefix: string, group: string)
    requires |prefix| > 0 && prefix[0] == '/' && ' ' !in prefix && ' ' !in group
    ensures var command := prefix + group;
      |command| > 0 && !IsSpace(command[0]) && ' ' !in command
  {
    assert (prefix + group)[0] == prefix[0];
  }

  /** A command, two spaces and a word are three words, the middle one
      empty. */
  lemma DoubleSpaceTokens(command: string, word: string)
    requires |command| > 0 && !IsSpace(command[0]) && ' ' !in command
    requires ' ' !in word && |word| > 0 && !IsSpace(word[|word| - 1])
    ensures Tokens(command + "  " + word) == [command, "", word]
  {
    var words := [command, "", word];
    assert words[1..] == ["", word] && ["", word][1..] == [word];
    var c := Join(words, ' ');
    assert Join([word], ' ') == word;
    assert Join(["", word], ' ') == [] + [' '] + word;
    assert c == command + "  " + word;
    assert c[0] == command[0] && c[|c| - 1] == word[|word| - 1];
    TokensOfWords(words);
  }

  /** Two spaces in a row give a label with an empty name: `/kind  bug`
      names `kind/` as well as `kind/bug`. */
  lemma DoubleSpace(group: string, word: string)
    requires ' ' !in group && !Contains(group, "remove-")
    requires ' ' !in word && |word| > 0 && !IsSpace(word[|word| - 1])
    ensures CommandLabels("/" + group + "  " + word) == {group + "/", group + "/" + word}
  {
    var command := "/" + group;
    var words := [command, "", word];
    SlashCommand("/", group);
    DoubleSpaceTokens(command, word);
    AddCommandGroup(command, group);
    assert CommandLabels(command + "  " + word) == WholeLabels(group, words, 3);
    assert WholeLabels(group, words, 1) == {};
    assert group + "/" + words[1] == group + "/";
    assert WholeLabels(group, words, 2) == {group + "/"};
  }

  /** Each name followed by a comma, in order: the string the handlers'
      loops build before trimming. */
  function Terminated(names: seq<string>): string
  {
    if |names| == 0 then [] else Terminated(names[..|names| - 1]) + names[|names| - 1] + ","
  }

  /** No name contains the separator and the last one is not empty, so the
      comma-joined string can be split back. */
  predicate Separable(names: seq<string>)
  {
    && |names| > 0
    && (forall n :: n in names ==> ',' !in n)
    && names[|names| - 1] != ""
  }

  lemma {:induction false} TerminatedJoin(names: seq<string>)
    requires |names| > 0
    ensures Terminated(names) == Join(names, ',') + ","
    decreases |names|
  {
    var init := names[..|names| - 1];
    if |init| > 0 {
      TerminatedJoin(init);
      JoinSnoc(init, names[|names| - 1], ',');
      assert init + [names[|names| - 1]] == names;
    }
  }

  /** Trimming the trailing commas of the built string gives the names joined
      by commas, and splitting it on commas gives the names back. */
  lemma TrimmedTerminated(names: seq<string>)
    requires Separable(names)
    ensures TrimRight(Terminated(names), ',') == Join(names, ',')
    ensures Split(TrimRight(Terminated(names), ','), ',') == names
  {
    TerminatedJoin(names);
    JoinEnds(names, ',');
    var j := Join(names, ',');
    var last := names[|names| - 1];
    assert j[|j| - 1] == last[|last| - 1];
    assert last[|last| - 1] in last;
    TrimRightOnce(j, ',');
    SplitJoin(names, ',');
  }

  /** The label string of the add path: the names of the item's labels and
      then the added labels, separated by commas. */
  method AddedLabelString(itemLabels: seq<Label>, listOfAddLabels: seq<string>) returns (strLabel: string)
    ensures strLabel == TrimRight(Terminated(Names(itemLabels) + listOfAddLabels), ',')
    ensures Separable(Names(itemLabels) + listOfAddLabels) ==>
      Split(strLabel, ',') == Names(itemLabels) + listOfAddLabels
  {
    var names := Names(itemLabels);
    strLabel := "";
    for i := 0 to |itemLabels|
      invariant strLabel == Terminated(names[..i])
    {
      strLabel := strLabel + itemLabels[i].name + ",";
      assert names[..i + 1][..i] == names[..i];
    }
    assert names + listOfAddLabels[..0] == names[..|itemLabels|];
    for i := 0 to |listOfAddLabels|
      invariant strLabel == Terminated(names + listOfAddLabels[..i])
    {
      strLabel := strLabel + listOfAddLabels[i] + ",";
      assert (names + listOfAddLabels[..i + 1])[..|names| + i] == names + listOfAddLabels[..i];
    }
    assert listOfAddLabels[..|listOfAddLabels|] == listOfAddLabels;
    strLabel := TrimRight(strLabel, ',');
    if Separable(names + listOfAddLabels) {
      TrimmedTerminated(names + listOfAddLabels);
    }
  }

  /** The string after cutting, in turn, each removed label followed by a
      comma where it first occurs (`strings.Replace(s, l + ",", "", 1)`). */
  function CutEach(s: string, removed: seq<string>): string
  {
    if |removed| == 0 then s
    else ReplaceFirst(CutEach(s, removed[..|removed| - 1]), removed[|removed| - 1] + ",", "")
  }

  /** The label string of the remove path of a pull request, as written: the
      comma-terminated names of the item's labels with each removed label cut
      at its first textual occurrence. */
  method RemovedLabelString(itemLabels: seq<Label>, listOfRemoveLabels: seq<string>) returns (strLabel: string)
    ensures strLabel == TrimRight(CutEach(Terminated(Names(itemLabels)), listOfRemoveLabels), ',')
  {
    var names := Names(itemLabels);
    strLabel := "";
    for i := 0 to |itemLabels|
      invariant strLabel == Terminated(names[..i])
    {
      strLabel := strLabel + itemLabels[i].name + ",";
      assert names[..i + 1][..i] == names[..i];
    }
    assert names[..|itemLabels|] == names;
    for i := 0 to |listOfRemoveLabels|
      invariant strLabel == CutEach(Terminated(names), listOfRemoveLabels[..i])
    {
      strLabel := ReplaceFirst(strLabel, listOfRemoveLabels[i] + ",", "");
      assert listOfRemoveLabels[..i + 1][..i] == listOfRemoveLabels[..i];
    }
    assert listOfRemoveLabels[..|listOfRemoveLabels|] == listOfRemoveLabels;
    strLabel := TrimRight(strLabel, ',');
  }

  /** The names that are not removed, in their order. */
  function Kept(names: seq<string>, removed: seq<string>): (kept: seq<string>)
    ensures forall n :: n in kept <==> n in names && n !in removed
  {
    if |names| == 0 then []
    else
      var init := Kept(names[..|names| - 1], removed);
      var last := names[|names| - 1];
      assert names == names[..|names| - 1] + [last];
      if last in removed then init else init + [last]
  }

  /** The label string of the remove path with each label removed as a whole
      name: the item's labels that are not removed, separated by commas. */
  method RemainingLabelString(itemLabels: seq<Label>, listOfRemoveLabels: seq<string>) returns (strLabel: string)
    ensures strLabel == TrimRight(Terminated(Kept(Names(itemLabels), listOfRemoveLabels)), ',')
    ensures Separable(Kept(Names(itemLabels), listOfRemoveLabels)) ==>
      Split(strLabel, ',') == Kept(Names(itemLabels), listOfRemoveLabels)
  {
    var names := Names(itemLabels);
    strLabel := "";
    for i := 0 to |itemLabels|
      invariant strLabel == Terminated(Kept(names[..i], listOfRemoveLabels))
    {
      assert names[..i + 1][..i] == names[..i];
      if itemLabels[i].name !in listOfRemoveLabels {
        strLabel := strLabel + itemLabels[i].name + ",";
      }
    }
    assert names[..|itemLabels|] == names;
    strLabel := TrimRight(strLabel, ',');
    if Separable(Kept(names, listOfRemoveLabels)) {
      TrimmedTerminated(Kept(names, listOfRemoveLabels));
    }
  }

  /** Cutting at the first textual occurrence can hit the end of another
      label: removing `l` from the labels `c l`, `b` and `l` (for example
      `kind/a` from `xkind/a`, `b`, `kind/a`) sends `c b,l` (`xb,kind/a`)
      where the remaining labels joined are `c l,b` (`xkind/a,b`). */
  lemma CutHitsAnotherLabel(c: char, l: string, b: string)
    requires |l| > 0 && c != l[0] && l[|l| - 1] != ',' && b != l
    ensures var names := [[c] + l, b, l];
      && TrimRight(CutEach(Terminated(names), [l]), ',') == [c] + b + "," + l
      && Kept(names, [l]) == [[c] + l, b]
      && Join(Kept(names, [l]), ',') == [c] + l + "," + b
  {
    CutAsWritten(c, l, b);
    var a := [c] + l;
    assert a != l by {
      assert |a| != |l|;
    }
    KeptDropsLast(a, b, l, [l]);
  }

  /** The as-written string for the labels `c l`, `b` and `l` when `l` is
      removed. */
  lemma CutAsWritten(c: char, l: string, b: string)
    requires |l| > 0 && c != l[0] && l[|l| - 1] != ','
    ensures TrimRight(CutEach(Terminated([[c] + l, b, l]), [l]), ',') == [c] + b + "," + l
  {
    TerminatedThree([c] + l, b, l);
    CutEachOne(Terminated([[c] + l, b, l]), l);
    CutSecond(c, l, b);
    TrimComma([c] + b + "," + l);
  }

  /** Cutting one label is one replacement. */
  lemma CutEachOne(s: string, l: string)
    ensures CutEach(s, [l]) == ReplaceFirst(s, l + ",", "")
  {
    assert [l][..0] == [];
  }

  /** Trimming the one trailing comma of a string ending in a non-comma. */
  lemma TrimComma(cut: string)
    requires |cut| > 0 && cut[|cut| - 1] != ','
    ensures TrimRight(cut + ",", ',') == cut
  {
    TrimRightOnce(cut, ',');
  }

  /** When a label follows a first character that does not begin it, the
      cut takes it from there rather than from the end. */
  lemma CutSecond(c: char, l: string, b: string)
    requires |l| > 0 && c != l[0]
    ensures ReplaceFirst([c] + l + "," + b + "," + l + ",", l + ",", "") == [c] + b + "," + l + ","
  {
    var rest := b + "," + l + ",";
    Regroup(c, l, b);
    ReplaceAfterFirstChar(c, l + ",", rest);
  }

  /** The terminated string of the example, regrouped around its first
      label. */
  lemma Regroup(c: char, l: string, b: string)
    ensures [c] + l + "," + b + "," + l + "," == [c] + ((l + ",") + (b + "," + l + ","))
    ensures [c] + (b + "," + l + ",") == [c] + b + "," + l + ","
  {
  }

  /** A pattern right after a first character that does not begin it is
      the first occurrence. */
  lemma ReplaceAfterFirstChar(c: char, pat: string, rest: string)
    requires |pat| > 0 && c != pat[0]
    ensures ReplaceFirst([c] + (pat + rest), pat, "") == [c] + rest
  {
    var s := [c] + (pat + rest);
    assert s[1..] == pat + rest;
    assert pat <= s[1..];
    assert IndexOf(s[1..], pat) == Some(0);
    assert !(pat <= s) by {
      assert s[0] == c;
    }
    assert IndexOf(s, pat) == Some(1);
    assert s[1 + |pat|..] == rest;
    assert s[..1] + "" + s[1 + |pat|..] == [c] + rest;
  }

  /** Of three names of which only the last is removed, the first two are
      kept. */
  lemma KeptDropsLast(a: string, b: string, c: string, removed: seq<string>)
    requires a !in removed && b !in removed && c in removed
    ensures Kept([a, b, c], removed) == [a, b]
    ensures Join([a, b], ',') == a + "," + b
  {
    var names := [a, b, c];
    assert names[..2] == [a, b] && names[..1] == [a] && names[..0] == [];
    assert [a, b][..1] == [a] && [a][..0] == [];
    assert Kept([a], removed) == [a];
    assert Kept([a, b], removed) == [a, b];
    assert [a, b][1..] == [b];
  }

  /** The terminated string of three names. */
  lemma TerminatedThree(a: string, b: string, c: string)
    ensures Terminated([a, b, c]) == a + "," + b + "," + c + ","
  {
    assert [a, b, c][..2] == [a, b] && [a, b][..1] == [a] && [a][..0] == [];
    assert Terminated([a]) == a + ",";
    assert Terminated([a, b]) == a + "," + b + ",";
  }
}
