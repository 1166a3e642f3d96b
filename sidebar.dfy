/** The two text helpers of the conversation list (frontend/src/components/Sidebar.jsx):
    the preview truncation and the empty case of the time label. */
module Sidebar {
  import opened Wrappers
  import opened MessageModel

  const DefaultMaxLength: nat := 40

  /** The horizontal ellipsis, U+2026. */
  const Ellipsis: char := '\U{2026}'

  /** `truncate(text, maxLength)`: "" for a missing or empty text, the text itself when it
      fits, else its first `maxLength` characters followed by an ellipsis. */
  function Truncate(text: Option<string>, maxLength: nat): (r: string)
    ensures !Truthy(text) ==> r == ""
    ensures Truthy(text) && |text.value| <= maxLength ==> r == text.value
    ensures Truthy(text) && |text.value| > maxLength ==>
      |r| == maxLength + 1 && r[..maxLength] == text.value[..maxLength] && r[maxLength] == Ellipsis
    ensures |r| <= maxLength + 1
  {
    if !Truthy(text) then ""
    else if |text.value| > maxLength then text.value[..maxLength] + [Ellipsis]
    else text.value
  }

  /** Truncating a preview again changes nothing. */
  lemma TruncateIdempotent(text: Option<string>, maxLength: nat)
    ensures Truncate(Some(Truncate(text, maxLength)), maxLength) == Truncate(text, maxLength)
  {
    var r := Truncate(text, maxLength);
    if Truthy(text) && |text.value| > maxLength {
      assert r[..maxLength] + [Ellipsis] == r;
    }
  }

  /** The preview the list shows for a row's last message: `truncate(lastMessage || "")`. */
  function Preview(lastMessage: string): (r: string)
    ensures |r| <= DefaultMaxLength + 1
    ensures |lastMessage| <= DefaultMaxLength ==> r == lastMessage
    ensures |lastMessage| > DefaultMaxLength ==> r == lastMessage[..DefaultMaxLength] + [Ellipsis]
  {
    Truncate(Some(lastMessage), DefaultMaxLength)
  }

  /** `formatTime`: "" for a missing or empty time; otherwise the locale's rendering of
      it, which is not modelled and is passed in. */
  function FormatTime(iso: Option<string>, rendered: string): (r: string)
    ensures !Truthy(iso) ==> r == ""
    ensures Truthy(iso) ==> r == rendered
  {
    if !Truthy(iso) then "" else rendered
  }
}
