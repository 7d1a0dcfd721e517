/** A HEOS player as the command encoder sees it: where it lives and its player id. */
module Device {

  /** The player's description URL and its HEOS player id, both kept as text. */
  datatype HeosDevice = HeosDevice(baseUrl: string, playerId: string)

  /** `HeosDevice::new`: stores both arguments unchanged; it validates nothing and cannot fail. */
  function New(url: string, pid: string): (d: HeosDevice)
    ensures d.baseUrl == url
    ensures d.playerId == pid
  {
    HeosDevice(url, pid)
  }

  /** The derived `Default`: both fields are empty strings. */
  function Default(): (d: HeosDevice)
    ensures d.baseUrl == "" && d.playerId == ""
  {
    HeosDevice("", "")
  }

  /** Every device is built by `New` from its own fields, and `New` tells different arguments apart. */
  lemma NewIsBijective(d: HeosDevice, url: string, pid: string, url': string, pid': string)
    ensures New(d.baseUrl, d.playerId) == d
    ensures New(url, pid) == New(url', pid') <==> url == url' && pid == pid'
  {
  }

  /** The default device is the one built from two empty strings. */
  lemma DefaultIsNewOfEmpty()
    ensures Default() == New("", "")
  {
  }
}
