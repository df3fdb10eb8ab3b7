/** The profile screen: the signed-in user's name, e-mail and role, the
    initials shown in the avatar, and the edit and save handlers. */
module ProfilePage {
  import opened Text
  import opened Seqs

  const DefaultProfile: map<string, string> :=
    map["name" := "Administrator", "email" := "admin@ada-ipt.local", "role" := "Admin"]

  const SavedMessage: string := "Profile updated successfully."

  /** The parts that are not empty. */
  function NonEmpty(parts: seq<string>): (r: seq<string>)
    ensures forall i :: 0 <= i < |r| ==> r[i] != ""
    ensures forall p :: p in r <==> p in parts && p != ""
    ensures IsSubsequence(r, parts)
  {
    var r := Filter((p: string) => p != "", parts);
    assert forall i :: 0 <= i < |r| ==> r[i] in r;
    r
  }

  /** `parts.map((part) => part[0]).join('')`: the first character of each
      part, where an empty part gives `undefined`, which `join` writes as
      nothing. */
  function Firsts(parts: seq<string>): (r: string)
    ensures |r| == |NonEmpty(parts)|
    ensures forall i :: 0 <= i < |r| ==> r[i] == NonEmpty(parts)[i][0]
    decreases |parts|
  {
    if |parts| == 0 then ""
    else (if parts[0] == "" then "" else [parts[0][0]]) + Firsts(parts[1..])
  }

  /** `name.split(' ').map((part) => part[0]).join('').toUpperCase()`: one
      upper-cased letter per non-empty space-separated part, so repeated,
      leading and trailing spaces add nothing. */
  function Initials(name: string): (r: string)
    ensures |r| == |NonEmpty(Split(name, ' '))|
    ensures forall i :: 0 <= i < |r| ==> r[i] == UpperChar(NonEmpty(Split(name, ' '))[i][0])
  {
    Upper(Firsts(Split(name, ' ')))
  }

  /** A single word gives its upper-cased first letter. */
  lemma InitialOfWord(word: string)
    requires word != "" && ' ' !in word
    ensures Initials(word) == [UpperChar(word[0])]
  {
    SplitHead(word, ' ');
    assert word[..IndexOf(word, ' ')] == word;
    assert Split(word, ' ') == [word];
    FilterAll((p: string) => p != "", [word]);
  }

  /** The default profile, `Administrator`, shows `A`. */
  lemma DefaultInitials()
    ensures Initials(DefaultProfile["name"]) == "A"
  {
    var name := DefaultProfile["name"];
    assert name == "Administrator";
    assert ' ' !in name by {
      forall k | 0 <= k < |name| ensures name[k] != ' ' {
        assert IsAsciiAlphanumeric(name[k]) by {
          assert forall j :: 0 <= j < |name| ==> IsAsciiAlphanumeric(name[j]);
        }
      }
    }
    InitialOfWord(name);
  }

  /** Words joined by single spaces give one initial per word, in order. */
  lemma InitialsOfWords(words: seq<string>)
    requires |words| >= 1
    requires forall i :: 0 <= i < |words| ==> words[i] != "" && ' ' !in words[i]
    ensures var r := Initials(Join(words, ' '));
      |r| == |words| && forall i :: 0 <= i < |words| ==> r[i] == UpperChar(words[i][0])
  {
    SplitJoin(words, ' ');
    FilterAll((p: string) => p != "", words);
  }

  /** The profile screen's state. */
  class ProfileScreen {
    var profile: map<string, string>
    var statusMessage: string

    predicate Valid()
      reads this
    {
      "name" in profile
    }

    constructor ()
      ensures Valid()
      ensures profile == DefaultProfile && statusMessage == ""
    {
      profile := DefaultProfile;
      statusMessage := "";
    }

    /** What the avatar shows. */
    function AvatarText(): string
      reads this
      requires Valid()
    {
      Initials(profile["name"])
    }

    /** `handleChange`: only the named field takes the new value. */
    method HandleChange(name: string, value: string)
      requires Valid()
      modifies this
      ensures Valid()
      ensures profile == old(profile)[name := value]
      ensures statusMessage == old(statusMessage)
    {
      profile := profile[name := value];
    }

    /** `handleSave`: the message is set and the profile stays as it is. */
    method HandleSave()
      modifies this
      ensures statusMessage == SavedMessage
      ensures profile == old(profile)
    {
      statusMessage := SavedMessage;
    }
  }
}
