/** The logic of components/NotificationPermission.tsx: the pre-processing
    `urlBase64ToUint8Array` applies to the VAPID key before `atob` (section 5 of RFC 4648,
    the URL-safe alphabet, rewritten to the section 4 alphabet and padded), the byte
    copy after it, and when the permission dialog shows. `atob` itself is not modelled. */
module NotificationPermission {
  import NotificationManager

  /** `(4 - (length % 4)) % 4`: the number of '=' below 4 that makes the length a
      multiple of 4. */
  function PaddingCount(len: nat): (p: nat)
    ensures p < 4 && (len + p) % 4 == 0
    ensures p == 0 <==> len % 4 == 0
  {
    (4 - len % 4) % 4
  }

  /** `"=".repeat(n)`. */
  function Repeat(c: char, n: nat): (r: string)
    ensures |r| == n && forall i :: 0 <= i < n ==> r[i] == c
  {
    if n == 0 then [] else [c] + Repeat(c, n - 1)
  }

  /** `s.replace(/from/g, to)`. */
  function ReplaceAll(s: string, from: char, to: char): (r: string)
    ensures |r| == |s|
    ensures forall i :: 0 <= i < |s| ==> r[i] == (if s[i] == from then to else s[i])
  {
    if |s| == 0 then [] else [if s[0] == from then to else s[0]] + ReplaceAll(s[1..], from, to)
  }

  /** One character of the URL-safe alphabet in the standard one. */
  function StandardChar(c: char): char {
    if c == '-' then '+' else if c == '_' then '/' else c
  }

  /** The text handed to `atob`. */
  function Preprocess(key: string): (r: string)
    ensures |r| % 4 == 0 && |key| <= |r| < |key| + 4
    ensures forall i :: 0 <= i < |r| ==> r[i] != '-' && r[i] != '_'
  {
    var padded := key + Repeat('=', PaddingCount(|key|));
    ReplaceAll(ReplaceAll(padded, '-', '+'), '_', '/')
  }

  /** The two passes rewrite each character on its own: the key's characters in the
      standard alphabet, followed by the padding. */
  lemma PreprocessByCharacter(key: string)
    ensures var r := Preprocess(key);
      && |r| == |key| + PaddingCount(|key|)
      && (forall i :: 0 <= i < |key| ==> r[i] == StandardChar(key[i]))
      && (forall i :: |key| <= i < |r| ==> r[i] == '=')
  {
  }

  /** One character of the standard alphabet back in the URL-safe one. */
  function UrlSafeChar(c: char): char {
    if c == '+' then '-' else if c == '/' then '_' else c
  }

  function DropPadding(s: string): (r: string)
    ensures |r| <= |s| && r == s[..|r|]
    ensures |r| > 0 ==> r[|r| - 1] != '='
    ensures forall i :: |r| <= i < |s| ==> s[i] == '='
  {
    if |s| > 0 && s[|s| - 1] == '=' then DropPadding(s[..|s| - 1]) else s
  }

  /** Dropping the padding stops at the last character that is not '='. */
  lemma {:induction false} DropPaddingLength(s: string, n: nat)
    requires n <= |s| && (n == 0 || s[n - 1] != '=')
    requires forall i :: n <= i < |s| ==> s[i] == '='
    ensures |DropPadding(s)| == n
    decreases |s|
  {
    if |s| > n {
      DropPaddingLength(s[..|s| - 1], n);
    }
  }

  /** Undoes the pre-processing: drops the padding and maps back to the URL-safe alphabet. */
  function ToUrlSafe(s: string): (r: string)
    ensures |r| <= |s|
  {
    var body := DropPadding(s);
    seq(|body|, i requires 0 <= i < |body| => UrlSafeChar(body[i]))
  }

  /** A URL-safe key without padding survives the pre-processing: it can be recovered
      from the text `atob` receives. */
  lemma PreprocessRoundTrip(key: string)
    requires forall i :: 0 <= i < |key| ==> key[i] != '+' && key[i] != '/' && key[i] != '='
    ensures ToUrlSafe(Preprocess(key)) == key
  {
    var r := Preprocess(key);
    PreprocessByCharacter(key);
    var body := DropPadding(r);
    DropPaddingLength(r, |key|);
    forall i | 0 <= i < |key|
      ensures UrlSafeChar(body[i]) == key[i]
    {
      assert body[i] == r[i];
    }
  }

  /** The `Uint8Array` filled with `charCodeAt(i)`: each code is stored modulo 256. */
  function ToBytes(raw: string): (bytes: seq<int>)
    ensures |bytes| == |raw|
    ensures forall i :: 0 <= i < |raw| ==> 0 <= bytes[i] < 256 && bytes[i] == (raw[i] as int) % 256
  {
    seq(|raw|, i requires 0 <= i < |raw| => (raw[i] as int) % 256)
  }

  /** `atob` yields characters below 256, and for such text each byte is the character
      itself: the copy loses nothing. */
  lemma BytesKeepLatinText(raw: string)
    requires forall i :: 0 <= i < |raw| ==> (raw[i] as int) < 256
    ensures forall i :: 0 <= i < |raw| ==> ToBytes(raw)[i] as char == raw[i]
  {
  }

  /** `Notification.permission` is "default" or "denied": the dialog shows. */
  predicate ShowsDialog(supported: bool, permission: string) {
    supported && (permission == "default" || permission == "denied")
  }

  /** For the three values the browser reports, the dialog shows exactly when
      notifications are supported and `hasNotificationPermission` is false. */
  lemma DialogUnlessGranted(supported: bool, permission: string)
    requires permission == "default" || permission == "granted" || permission == "denied"
    ensures ShowsDialog(supported, permission)
            <==> supported && !NotificationManager.HasPermission(supported, permission)
  {
  }

  /** The state the dialog renders from. */
  datatype DialogView = DialogView(permissionState: string, isClosing: bool, shown: bool)

  /** After mounting: the state starts as "prompt" and takes the browser's value when the
      API exists. */
  function Mount(supported: bool, permission: string): (v: DialogView)
    ensures v.shown == ShowsDialog(supported, permission) && !v.isClosing
    ensures v.permissionState == (if supported then permission else "prompt")
  {
    DialogView(if supported then permission else "prompt", false, ShowsDialog(supported, permission))
  }

  /** The "Enable Notifications" button is disabled, and the blocked warning shown,
      exactly when the state is "denied". */
  predicate Blocked(v: DialogView) {
    v.permissionState == "denied"
  }

  /** `handleRequestPermission` after the browser's answer: the dialog starts closing
      and the state records the answer. */
  function AfterRequest(v: DialogView, granted: bool): (v': DialogView)
    ensures v'.isClosing && v'.shown == v.shown
    ensures Blocked(v') <==> !granted
  {
    v.(permissionState := if granted then "granted" else "denied", isClosing := true)
  }

  /** On mount the dialog is blocked exactly when the browser has denied notifications;
      a refused request then blocks it. */
  lemma BlockedFollowsBrowser(supported: bool, permission: string, granted: bool)
    ensures Blocked(Mount(supported, permission)) <==> supported && permission == "denied"
    ensures Blocked(AfterRequest(Mount(supported, permission), granted)) <==> !granted
  {
  }
}
