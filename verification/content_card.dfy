/** The text a recommendation card shows for a record's author, media type and status,
    and the genre tags it draws from the record's comma-separated genre string. */
module ContentCard {
  import opened Text

  /** The first underscore replaced by a space; later underscores stay. This is
      JavaScript's `text.replace("_", " ")`, which with a string pattern replaces only
      the first match. */
  function PrettyText(text: string): (r: string)
    ensures |r| == |text|
    ensures '_' !in text ==> r == text
    ensures FirstIndex(text, '_').Some? ==> r == text[FirstIndex(text, '_').value := ' ']
    ensures '_' in text ==> multiset(r) == multiset(text) - multiset{'_'} + multiset{' '}
  {
    if text == [] then []
    else if text[0] == '_' then [' '] + text[1..]
    else
      var rest := PrettyText(text[1..]);
      assert text == [text[0]] + text[1..];
      [text[0]] + rest
  }

  /** The card's `isEmpty` helper, which despite its name produces display text: "N/A"
      for a missing value, "publishing" for the `currently_publishing` status (checked
      before any underscore is touched), and `PrettyText` of everything else. */
  function DisplayValue(text: string): (r: string)
    ensures r != ""
    ensures text == "" ==> r == "N/A"
    ensures text == "currently_publishing" ==> r == "publishing"
    ensures text != "" && text != "currently_publishing" ==> r == PrettyText(text)
  {
    if text == "" then "N/A"
    else if text == "currently_publishing" then "publishing"
    else PrettyText(text)
  }

  /** Text before the first underscore is kept, the underscore becomes a space, and the
      text after it is kept as it is, underscores included. */
  lemma {:induction false} PrettyTextAt(before: string, after: string)
    requires '_' !in before
    ensures PrettyText(before + "_" + after) == before + " " + after
  {
    var text := before + "_" + after;
    if before != [] {
      assert text[1..] == before[1..] + "_" + after;
      PrettyTextAt(before[1..], after);
      assert before == [before[0]] + before[1..];
    } else {
      assert text == "_" + after;
    }
  }

  /** The genre tags of a card: the genre string split at every comma. No tag contains a
      comma, there is one tag more than there are commas (so "" gives a single empty
      tag), and joining the tags with commas restores the string. */
  function GenreTags(genres: string): (tags: seq<string>)
    ensures forall i :: 0 <= i < |tags| ==> ',' !in tags[i]
    ensures |tags| == Count(genres, ',') + 1
    ensures Join(tags, ',') == genres
  {
    JoinSplit(genres, ',');
    Split(genres, ',')
  }
}
