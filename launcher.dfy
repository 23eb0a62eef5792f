/**
 * The launcher manifest's `menu`: from what the launcher reports about the
 * app (is the virtual environment installed, which scripts are running,
 * the local URL the start script published), the list of menu items shown.
 */
module Launcher {
  import opened Options

  /** One menu entry. Entries written without `default` are not the default. */
  datatype MenuItem = MenuItem(isDefault: bool, icon: string, text: string, href: string)

  /**
   * The inputs `menu` reads: `info.exists("app/venv")`, `info.running(...)`
   * for the four scripts, and the `url` of `info.local("start.js")`, None
   * when there is no local record or it has no url.
   */
  datatype LauncherInfo = LauncherInfo(
    installed: bool,
    installRunning: bool,
    startRunning: bool,
    updateRunning: bool,
    resetRunning: bool,
    localUrl: Option<string>)

  /** `local && local.url` is truthy: a url is present and is not the empty string. */
  predicate HasUrl(info: LauncherInfo): (r: bool)
    ensures r ==> info.localUrl.Some? && |info.localUrl.value| >= 1
  {
    info.localUrl.Some? && info.localUrl.value != ""
  }

  /** Exactly one default entry, and it comes first. */
  predicate OneDefaultFirst(items: seq<MenuItem>)
  {
    |items| > 0 && items[0].isDefault && forall i :: 1 <= i < |items| ==> !items[i].isDefault
  }

  const InstallingItem := MenuItem(true, "fa-solid fa-plug", "Installing", "install.js")
  const InstallItem := MenuItem(true, "fa-solid fa-plug", "Install", "install.js")
  const TerminalItem := MenuItem(true, "fa-solid fa-terminal", "Terminal", "start.js")
  const UpdatingItem := MenuItem(true, "fa-solid fa-rotate-right", "Updating", "update.js")
  const ResettingItem := MenuItem(true, "fa-regular fa-circle-xmark", "Resetting", "reset.js")

  function OpenWebUiItem(url: string): MenuItem
  {
    MenuItem(true, "fa-solid fa-rocket", "Open Web UI", url)
  }

  /** The idle menu of an installed app: Start (default), then Install, Update, Reset. */
  const IdleMenu := [
    MenuItem(true, "fa-solid fa-power-off", "Start", "start.js"),
    MenuItem(false, "fa-solid fa-plug", "Install", "install.js"),
    MenuItem(false, "fa-solid fa-rotate-right", "Update", "update.js"),
    MenuItem(false, "fa-regular fa-circle-xmark", "Reset", "reset.js")]

  /**
   * `menu`: the first of these that holds decides the result: install
   * running, not installed, start running (with or without a url), update
   * running, reset running; otherwise the idle menu.
   */
  function Menu(info: LauncherInfo): (items: seq<MenuItem>)
    ensures OneDefaultFirst(items)
    ensures 1 <= |items| <= 4
    ensures forall i :: 0 <= i < |items| ==>
              items[i].href in {"install.js", "start.js", "update.js", "reset.js"} ||
              (HasUrl(info) && items[i].href == info.localUrl.value)
  {
    if info.installRunning then
      [InstallingItem]
    else if !info.installed then
      [InstallItem]
    else if info.startRunning then
      if HasUrl(info) then [OpenWebUiItem(info.localUrl.value), TerminalItem.(isDefault := false)]
      else [TerminalItem]
    else if info.updateRunning then
      [UpdatingItem]
    else if info.resetRunning then
      [ResettingItem]
    else
      IdleMenu
  }

  /** While install.js runs, the menu is the single "Installing" entry, whatever else holds. */
  lemma MenuWhileInstalling(info: LauncherInfo)
    requires info.installRunning
    ensures Menu(info) == [MenuItem(true, "fa-solid fa-plug", "Installing", "install.js")]
  {
  }

  /** Not installed and not installing: the single "Install" entry. */
  lemma MenuWhenNotInstalled(info: LauncherInfo)
    requires !info.installRunning && !info.installed
    ensures Menu(info) == [MenuItem(true, "fa-solid fa-plug", "Install", "install.js")]
  {
  }

  /** start.js running with a url: "Open Web UI" to that url (default), then "Terminal". */
  lemma MenuWhileStartedWithUrl(info: LauncherInfo)
    requires !info.installRunning && info.installed && info.startRunning && HasUrl(info)
    ensures var items := Menu(info);
            && |items| == 2
            && items[0] == MenuItem(true, "fa-solid fa-rocket", "Open Web UI", info.localUrl.value)
            && items[1] == MenuItem(false, "fa-solid fa-terminal", "Terminal", "start.js")
  {
  }

  /** start.js running without a (non-empty) url: the single default "Terminal" entry. */
  lemma MenuWhileStartedWithoutUrl(info: LauncherInfo)
    requires !info.installRunning && info.installed && info.startRunning && !HasUrl(info)
    ensures Menu(info) == [MenuItem(true, "fa-solid fa-terminal", "Terminal", "start.js")]
  {
  }

  /** update.js running (and nothing of higher priority): the single "Updating" entry. */
  lemma MenuWhileUpdating(info: LauncherInfo)
    requires !info.installRunning && info.installed && !info.startRunning && info.updateRunning
    ensures Menu(info) == [MenuItem(true, "fa-solid fa-rotate-right", "Updating", "update.js")]
  {
  }

  /** reset.js running (and nothing of higher priority): the single "Resetting" entry. */
  lemma MenuWhileResetting(info: LauncherInfo)
    requires !info.installRunning && info.installed && !info.startRunning && !info.updateRunning
    requires info.resetRunning
    ensures Menu(info) == [MenuItem(true, "fa-regular fa-circle-xmark", "Resetting", "reset.js")]
  {
  }

  /** Installed and nothing running: Start, Install, Update, Reset, in that order. */
  lemma MenuWhenIdle(info: LauncherInfo)
    requires !info.installRunning && info.installed && !info.startRunning
    requires !info.updateRunning && !info.resetRunning
    ensures |Menu(info)| == 4
    ensures Menu(info)[0].text == "Start" && Menu(info)[0].href == "start.js" && Menu(info)[0].isDefault
    ensures Menu(info)[1].text == "Install" && Menu(info)[1].href == "install.js"
    ensures Menu(info)[2].text == "Update" && Menu(info)[2].href == "update.js"
    ensures Menu(info)[3].text == "Reset" && Menu(info)[3].href == "reset.js"
  {
  }

  /**
   * The checks are prioritised install running > not installed > start
   * running > update running > reset running: once a higher check decides,
   * the inputs only lower checks read cannot change the menu.
   */
  lemma MenuPriority(a: LauncherInfo, b: LauncherInfo)
    ensures a.installRunning && b.installRunning ==> Menu(a) == Menu(b)
    ensures !a.installRunning && !b.installRunning && !a.installed && !b.installed ==> Menu(a) == Menu(b)
    ensures && !a.installRunning && !b.installRunning && a.installed && b.installed
            && a.startRunning && b.startRunning && a.localUrl == b.localUrl
            ==> Menu(a) == Menu(b)
    ensures && !a.installRunning && !b.installRunning && a.installed && b.installed
            && !a.startRunning && !b.startRunning && a.updateRunning && b.updateRunning
            ==> Menu(a) == Menu(b)
    ensures && !a.installRunning && !b.installRunning && a.installed && b.installed
            && !a.startRunning && !b.startRunning && !a.updateRunning && !b.updateRunning
            && a.resetRunning == b.resetRunning
            ==> Menu(a) == Menu(b)
  {
  }
}
