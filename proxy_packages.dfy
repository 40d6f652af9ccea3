/** The packages routed through the proxy by default: the installed ones among
    those a configuration file lists, among well-known apps and among known
    browsers, plus every installed app that looks like a browser or is not a
    system app, never the excluded package. */
module DefaultProxyPackages {
  import opened Text

  /** What the package manager reports for an installed application: its
      package name, its label (null when it has none) and whether it carries
      `FLAG_SYSTEM`. */
  datatype AppInfo = AppInfo(packageName: string, labelText: Option<string>, system: bool)

  /** Apps routed through the proxy whenever they are installed. */
  const PREFERRED_PACKAGES: seq<string> := [
    "com.smile.gifmaker",
    "com.ss.android.ugc.aweme",
    "com.xingin.xhs",
    "com.tencent.mm",
    "mark.via"
  ]

  /** Browsers and web views routed through the proxy whenever they are installed. */
  const BROWSER_PACKAGES: seq<string> := [
    "com.android.chrome", "com.chrome.beta", "com.chrome.dev",
    "com.google.android.webview", "com.android.webview",
    "org.mozilla.firefox", "org.mozilla.fenix", "org.mozilla.firefox_beta", "org.mozilla.fdroid",
    "com.microsoft.emmx", "com.opera.browser", "com.opera.mini.native", "com.opera.gx",
    "com.sec.android.app.sbrowser", "com.vivo.browser", "com.bbk.browser",
    "com.oppo.browser", "com.mi.globalbrowser", "com.miui.browser",
    "com.UCMobile.intl", "com.UCMobile", "com.quark.browser",
    "com.tencent.mtt", "com.aliyun.mobile.browser", "com.huawei.browser", "com.huawei.webview",
    "com.lenovo.browser", "mark.via.gp", "com.kiwibrowser.browser",
    "com.brave.browser", "com.duckduckgo.mobile.android"
  ]

  /** `pm.getPackageInfo(pkg, 0)` returns instead of throwing
      `NameNotFoundException`: the package is installed. */
  predicate IsInstalled(apps: seq<AppInfo>, pkg: string) {
    exists i :: 0 <= i < |apps| && apps[i].packageName == pkg
  }

  /** `excludePackage != null && excludePackage.equals(pkg)`. */
  predicate Excluded(exclude: Option<string>, pkg: string) {
    exclude == Some(pkg)
  }

  /** The fallback test: the package name, lowercased, contains "browser",
      "webview" or "web.view", or the label, lowercased (empty when there is
      none), contains "浏览器", "browser" or "webview". */
  predicate LooksLikeBrowser(app: AppInfo) {
    var pkg := ToLowerAscii(app.packageName);
    var caption := if app.labelText.Some? then ToLowerAscii(app.labelText.value) else "";
    || Contains(pkg, "browser") || Contains(pkg, "webview") || Contains(pkg, "web.view")
    || Contains(caption, "浏览器") || Contains(caption, "browser") || Contains(caption, "webview")
  }

  /** Which installed apps a scan over the installed applications adds. */
  datatype Rule = BrowserLike | UserApp

  predicate Selects(rule: Rule, app: AppInfo) {
    match rule
    case BrowserLike => LooksLikeBrowser(app)
    case UserApp => !app.system
  }

  // ------------------------------------------------------------ what each loop adds

  /** What a loop over the names `names` adds: each one that is not excluded
      and is installed. */
  function InstalledAmong(names: seq<string>, apps: seq<AppInfo>, exclude: Option<string>): set<string>
    decreases |names|
  {
    if names == [] then {}
    else
      var last := names[|names| - 1];
      InstalledAmong(names[..|names| - 1], apps, exclude)
        + if !Excluded(exclude, last) && IsInstalled(apps, last) then {last} else {}
  }

  /** What a loop over the installed applications `scanned` adds: the package
      name of each one that is not excluded and that `rule` selects. */
  function Matching(scanned: seq<AppInfo>, rule: Rule, exclude: Option<string>): set<string>
    decreases |scanned|
  {
    if scanned == [] then {}
    else
      var last := scanned[|scanned| - 1];
      Matching(scanned[..|scanned| - 1], rule, exclude)
        + if !Excluded(exclude, last.packageName) && Selects(rule, last) then {last.packageName} else {}
  }

  /** `getDefaultPackages` with the package manager's installed applications
      (none when there is no package manager) and the packages listed in the
      configuration file (none when there is no file or no list). */
  function DefaultPackages(pm: Option<seq<AppInfo>>, file: Option<seq<string>>, exclude: Option<string>): set<string> {
    if pm.None? then {}
    else
      var apps := pm.value;
      (if file.Some? then InstalledAmong(file.value, apps, exclude) else {})
        + InstalledAmong(PREFERRED_PACKAGES, apps, exclude)
        + InstalledAmong(BROWSER_PACKAGES, apps, exclude)
        + Matching(apps, BrowserLike, exclude)
        + Matching(apps, UserApp, exclude)
  }

  // ------------------------------------------------------------ membership

  lemma {:induction false} InstalledAmongMembers(names: seq<string>, apps: seq<AppInfo>, exclude: Option<string>, p: string)
    ensures p in InstalledAmong(names, apps, exclude) <==> p in names && IsInstalled(apps, p) && !Excluded(exclude, p)
    decreases |names|
  {
    if names != [] {
      var init := names[..|names| - 1];
      InstalledAmongMembers(init, apps, exclude, p);
      assert names == init + [names[|names| - 1]];
      assert p in names <==> p in init || p == names[|names| - 1];
    }
  }

  lemma {:induction false} MatchingMembers(scanned: seq<AppInfo>, rule: Rule, exclude: Option<string>, p: string)
    ensures p in Matching(scanned, rule, exclude) <==>
      !Excluded(exclude, p) && exists i :: 0 <= i < |scanned| && scanned[i].packageName == p && Selects(rule, scanned[i])
    decreases |scanned|
  {
    if scanned != [] {
      var init := scanned[..|scanned| - 1];
      var last := scanned[|scanned| - 1];
      MatchingMembers(init, rule, exclude, p);
      if exists i :: 0 <= i < |scanned| && scanned[i].packageName == p && Selects(rule, scanned[i]) {
        var i :| 0 <= i < |scanned| && scanned[i].packageName == p && Selects(rule, scanned[i]);
        if i < |init| {
          assert init[i] == scanned[i];
        }
      }
      if exists i :: 0 <= i < |init| && init[i].packageName == p && Selects(rule, init[i]) {
        var i :| 0 <= i < |init| && init[i].packageName == p && Selects(rule, init[i]);
        assert scanned[i] == init[i];
      }
    }
  }

  /** An app some scan selects is installed. */
  predicate SelectedApp(apps: seq<AppInfo>, p: string) {
    exists i :: 0 <= i < |apps| && apps[i].packageName == p && (LooksLikeBrowser(apps[i]) || !apps[i].system)
  }

  /** The result is exactly the union of the sources, less the excluded
      package: a listed package that is installed, or an installed app that
      looks like a browser or is not a system app. */
  lemma DefaultPackagesMembers(pm: Option<seq<AppInfo>>, file: Option<seq<string>>, exclude: Option<string>, p: string)
    ensures p in DefaultPackages(pm, file, exclude) <==>
      && pm.Some? && !Excluded(exclude, p)
      && (|| (file.Some? && p in file.value && IsInstalled(pm.value, p))
          || (p in PREFERRED_PACKAGES && IsInstalled(pm.value, p))
          || (p in BROWSER_PACKAGES && IsInstalled(pm.value, p))
          || SelectedApp(pm.value, p))
  {
    if pm.Some? {
      var apps := pm.value;
      if file.Some? {
        InstalledAmongMembers(file.value, apps, exclude, p);
      }
      InstalledAmongMembers(PREFERRED_PACKAGES, apps, exclude, p);
      InstalledAmongMembers(BROWSER_PACKAGES, apps, exclude, p);
      MatchingMembers(apps, BrowserLike, exclude, p);
      MatchingMembers(apps, UserApp, exclude, p);
    }
  }

  // ------------------------------------------------------------ properties

  /** Without a package manager nothing is routed by default. */
  lemma NoPackageManagerIsEmpty(file: Option<seq<string>>, exclude: Option<string>)
    ensures DefaultPackages(None, file, exclude) == {}
  {
  }

  /** The excluded package is never in the result. */
  lemma ExcludedNeverIncluded(pm: Option<seq<AppInfo>>, file: Option<seq<string>>, pkg: string)
    ensures pkg !in DefaultPackages(pm, file, Some(pkg))
  {
    DefaultPackagesMembers(pm, file, Some(pkg), pkg);
  }

  /** Everything in the result is installed. */
  lemma OnlyInstalled(apps: seq<AppInfo>, file: Option<seq<string>>, exclude: Option<string>, p: string)
    requires p in DefaultPackages(Some(apps), file, exclude)
    ensures IsInstalled(apps, p)
  {
    DefaultPackagesMembers(Some(apps), file, exclude, p);
  }

  /** A package listed in the file, not excluded, is in the result if and
      only if it is installed. */
  lemma FilePackageIffInstalled(apps: seq<AppInfo>, file: seq<string>, exclude: Option<string>, p: string)
    requires p in file && !Excluded(exclude, p)
    ensures p in DefaultPackages(Some(apps), Some(file), exclude) <==> IsInstalled(apps, p)
  {
    DefaultPackagesMembers(Some(apps), Some(file), exclude, p);
  }

  /** An entry of either table, not excluded, is in the result if and only if
      it is installed, whatever the file lists. */
  lemma TablePackageIffInstalled(apps: seq<AppInfo>, file: Option<seq<string>>, exclude: Option<string>, p: string)
    requires (p in PREFERRED_PACKAGES || p in BROWSER_PACKAGES) && !Excluded(exclude, p)
    ensures p in DefaultPackages(Some(apps), file, exclude) <==> IsInstalled(apps, p)
  {
    DefaultPackagesMembers(Some(apps), file, exclude, p);
  }

  /** An installed app that looks like a browser is in the result unless excluded. */
  lemma BrowserLikeAppIncluded(apps: seq<AppInfo>, file: Option<seq<string>>, exclude: Option<string>, i: nat)
    requires i < |apps| && LooksLikeBrowser(apps[i]) && !Excluded(exclude, apps[i].packageName)
    ensures apps[i].packageName in DefaultPackages(Some(apps), file, exclude)
  {
    DefaultPackagesMembers(Some(apps), file, exclude, apps[i].packageName);
  }

  /** Every installed app without the system flag is in the result unless excluded. */
  lemma UserAppIncluded(apps: seq<AppInfo>, file: Option<seq<string>>, exclude: Option<string>, i: nat)
    requires i < |apps| && !apps[i].system && !Excluded(exclude, apps[i].packageName)
    ensures apps[i].packageName in DefaultPackages(Some(apps), file, exclude)
  {
    DefaultPackagesMembers(Some(apps), file, exclude, apps[i].packageName);
  }

  /** A system app that is not listed anywhere and does not look like a
      browser is left out. */
  lemma UnlistedSystemAppLeftOut(apps: seq<AppInfo>, file: Option<seq<string>>, exclude: Option<string>, p: string)
    requires forall i :: 0 <= i < |apps| && apps[i].packageName == p ==> apps[i].system && !LooksLikeBrowser(apps[i])
    requires p !in PREFERRED_PACKAGES && p !in BROWSER_PACKAGES && (file.Some? ==> p !in file.value)
    ensures p !in DefaultPackages(Some(apps), file, exclude)
  {
    DefaultPackagesMembers(Some(apps), file, exclude, p);
  }

  /** Case folding touches only ASCII letters, so a label holding "浏览器"
      still holds it once lowercased. */
  lemma LowerKeepsNonLetters(s: string, t: string)
    requires Contains(s, t) && forall k :: 0 <= k < |t| ==> !('A' <= t[k] <= 'Z')
    ensures Contains(ToLowerAscii(s), t)
  {
    var i: nat :| i <= |s| && OccursAt(s, t, i);
    var low := ToLowerAscii(s);
    assert low[i..i + |t|] == t by {
      forall k | 0 <= k < |t|
        ensures low[i + k] == t[k]
      {
        assert s[i + k] == s[i..i + |t|][k];
      }
    }
    assert OccursAt(low, t, i);
  }

  /** An app labelled with "浏览器" (browser) anywhere in its label is routed
      through the proxy unless excluded. */
  lemma ChineseBrowserLabelIncluded(apps: seq<AppInfo>, file: Option<seq<string>>, exclude: Option<string>, i: nat)
    requires i < |apps| && apps[i].labelText.Some? && Contains(apps[i].labelText.value, "浏览器")
    requires !Excluded(exclude, apps[i].packageName)
    ensures apps[i].packageName in DefaultPackages(Some(apps), file, exclude)
  {
    LowerKeepsNonLetters(apps[i].labelText.value, "浏览器");
    BrowserLikeAppIncluded(apps, file, exclude, i);
  }

  // ------------------------------------------------------------ the method

  /** `pm.getPackageInfo(pkg, 0)`, answered from the installed applications. */
  method GetPackageInfo(apps: seq<AppInfo>, pkg: string) returns (found: bool)
    ensures found <==> IsInstalled(apps, pkg)
  {
    found := false;
    for i := 0 to |apps|
      invariant found <==> exists j :: 0 <= j < i && apps[j].packageName == pkg
    {
      if apps[i].packageName == pkg {
        found := true;
      }
    }
  }

  /** One of the loops over package names: adds each that is not excluded
      and is installed. */
  method AddInstalled(result0: set<string>, names: seq<string>, apps: seq<AppInfo>, exclude: Option<string>)
    returns (result: set<string>)
    ensures result == result0 + InstalledAmong(names, apps, exclude)
  {
    result := result0;
    for i := 0 to |names|
      invariant result == result0 + InstalledAmong(names[..i], apps, exclude)
    {
      assert names[..i + 1][..i] == names[..i];
      if Excluded(exclude, names[i]) {
        continue;
      }
      var found := GetPackageInfo(apps, names[i]);
      if found {
        result := result + {names[i]};
      }
    }
    assert names[..|names|] == names;
  }

  /** One of the loops over the installed applications: adds the package name
      of each that is not excluded and that `rule` selects. */
  method AddMatching(result0: set<string>, apps: seq<AppInfo>, rule: Rule, exclude: Option<string>)
    returns (result: set<string>)
    ensures result == result0 + Matching(apps, rule, exclude)
  {
    result := result0;
    for i := 0 to |apps|
      invariant result == result0 + Matching(apps[..i], rule, exclude)
    {
      assert apps[..i + 1][..i] == apps[..i];
      if Excluded(exclude, apps[i].packageName) {
        continue;
      }
      if Selects(rule, apps[i]) {
        result := result + {apps[i].packageName};
      }
    }
    assert apps[..|apps|] == apps;
  }

  /** `getDefaultPackages`: the file's packages, the preferred apps and the
      known browsers when installed, then the browser-like and the user apps
      among the installed applications, skipping the excluded package. */
  method GetDefaultPackages(pm: Option<seq<AppInfo>>, file: Option<seq<string>>, exclude: Option<string>)
    returns (result: set<string>)
    ensures result == DefaultPackages(pm, file, exclude)
  {
    result := {};
    if pm.None? {
      return;
    }
    var apps := pm.value;
    if file.Some? && |file.value| > 0 {
      result := AddInstalled(result, file.value, apps, exclude);
    }
    result := AddInstalled(result, PREFERRED_PACKAGES, apps, exclude);
    result := AddInstalled(result, BROWSER_PACKAGES, apps, exclude);
    result := AddMatching(result, apps, BrowserLike, exclude);
    result := AddMatching(result, apps, UserApp, exclude);
  }
}
