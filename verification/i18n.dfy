/**
 The localization manager of the application: the fallback chain of the
 translation function `t`, `{placeholder}` substitution, the language switch
 with its listener notification, the listener registry, browser-language
 detection and the department catalogue.

 The string tables are transcribed from the source. Browser storage and
 `navigator.language` are not read here: the stored language and the
 browser's language string are parameters.
 */
module I18n {
  import opened Wrappers
  import opened Text
  import opened Seqs

  type Table = map<string, string>
  /** Language code to its string table. */
  type Catalog = map<string, Table>

  const English: Table := map[
    "appTitle" := "Employee Management System",
    "appSubtitle" := "Manage your team with ease and efficiency",
    "totalEmployees" := "Total Employees",
    "departments" := "Departments",
    "averageSalary" := "Average Salary",
    "recentHires" := "Recent Hires (6 months)",
    "searchPlaceholder" := "Search employees...",
    "allDepartments" := "All Departments",
    "addEmployee" := "Add Employee",
    "noEmployeesFound" := "No employees found",
    "noEmployeesMessage" := "Try adjusting your search criteria or add a new employee.",
    "editButton" := "Edit",
    "deleteButton" := "Delete",
    "addNewEmployee" := "Add New Employee",
    "editEmployee" := "Edit Employee",
    "fullName" := "Full Name",
    "emailAddress" := "Email Address",
    "position" := "Position",
    "department" := "Department",
    "salary" := "Salary (TRY)",
    "phoneNumber" := "Phone Number",
    "startDate" := "Start Date",
    "selectDepartment" := "Select Department",
    "cancel" := "Cancel",
    "updateEmployee" := "Update Employee",
    "nameRequired" := "Name is required",
    "emailRequired" := "Email is required",
    "emailInvalid" := "Please enter a valid email address",
    "positionRequired" := "Position is required",
    "departmentRequired" := "Department is required",
    "salaryRequired" := "Salary is required",
    "salaryInvalid" := "Please enter a valid salary amount",
    "phoneRequired" := "Phone is required",
    "phoneInvalid" := "Please enter a valid phone number",
    "startDateRequired" := "Start date is required",
    "enterFullName" := "Enter full name",
    "enterEmail" := "Enter email address",
    "enterPosition" := "Enter position",
    "enterSalary" := "Enter salary",
    "phonePlaceholder" := "+90 5xx xxx xxxx",
    "employeeAdded" := "{name} has been added successfully!",
    "employeeUpdated" := "{name} has been updated successfully!",
    "employeeDeleted" := "{name} has been removed successfully!",
    "confirmDelete" := "Are you sure you want to delete {name}?",
    "engineering" := "Engineering",
    "design" := "Design",
    "product" := "Product",
    "marketing" := "Marketing",
    "sales" := "Sales",
    "hr" := "HR",
    "departmentLabel" := "Department:",
    "emailLabel" := "Email:",
    "salaryLabel" := "Salary:",
    "startDateLabel" := "Start Date:",
    "loading" := "Loading Employee Management System...",
    "demoTitle" := "Employee Management System",
    "demoSubtitle" := "Component Demo & Documentation",
    "liveApplication" := "Live Application",
    "liveAppDescription" := "Experience the full employee management application with all features integrated.",
    "launchApp" := "Launch Full Application",
    "keyFeatures" := "Key Features",
    "technicalImplementation" := "Technical Implementation",
    "componentArchitecture" := "Component Architecture",
    "designSystem" := "Design System",
    "gettingStarted" := "Getting Started",
    "startUsingApp" := "Start Using the App"
  ]

  const Turkish: Table := map[
    "appTitle" := "Çalışan Yönetim Sistemi",
    "appSubtitle" := "Ekibinizi kolaylıkla ve verimli bir şekilde yönetin",
    "totalEmployees" := "Toplam Çalışan",
    "departments" := "Departman",
    "averageSalary" := "Ortalama Maaş",
    "recentHires" := "Son İşe Alınanlar (6 ay)",
    "searchPlaceholder" := "Çalışan ara...",
    "allDepartments" := "Tüm Departmanlar",
    "addEmployee" := "Çalışan Ekle",
    "noEmployeesFound" := "Çalışan bulunamadı",
    "noEmployeesMessage" := "Arama kriterlerinizi ayarlayın veya yeni bir çalışan ekleyin.",
    "editButton" := "Düzenle",
    "deleteButton" := "Sil",
    "addNewEmployee" := "Yeni Çalışan Ekle",
    "editEmployee" := "Çalışanı Düzenle",
    "fullName" := "Ad Soyad",
    "emailAddress" := "E-posta Adresi",
    "position" := "Pozisyon",
    "department" := "Departman",
    "salary" := "Maaş (TL)",
    "phoneNumber" := "Telefon Numarası",
    "startDate" := "İşe Başlama Tarihi",
    "selectDepartment" := "Departman Seçin",
    "cancel" := "İptal",
    "updateEmployee" := "Çalışanı Güncelle",
    "nameRequired" := "Ad soyad gereklidir",
    "emailRequired" := "E-posta gereklidir",
    "emailInvalid" := "Lütfen geçerli bir e-posta adresi girin",
    "positionRequired" := "Pozisyon gereklidir",
    "departmentRequired" := "Departman gereklidir",
    "salaryRequired" := "Maaş gereklidir",
    "salaryInvalid" := "Lütfen geçerli bir maaş miktarı girin",
    "phoneRequired" := "Telefon gereklidir",
    "phoneInvalid" := "Lütfen geçerli bir telefon numarası girin",
    "startDateRequired" := "İşe başlama tarihi gereklidir",
    "enterFullName" := "Ad soyad girin",
    "enterEmail" := "E-posta adresi girin",
    "enterPosition" := "Pozisyon girin",
    "enterSalary" := "Maaş girin",
    "phonePlaceholder" := "+90 5xx xxx xxxx",
    "employeeAdded" := "{name} başarıyla eklendi!",
    "employeeUpdated" := "{name} başarıyla güncellendi!",
    "employeeDeleted" := "{name} başarıyla kaldırıldı!",
    "confirmDelete" := "{name} adlı çalışanı silmek istediğinizden emin misiniz?",
    "engineering" := "Mühendislik",
    "design" := "Tasarım",
    "product" := "Ürün",
    "marketing" := "Pazarlama",
    "sales" := "Satış",
    "hr" := "İnsan Kaynakları",
    "departmentLabel" := "Departman:",
    "emailLabel" := "E-posta:",
    "salaryLabel" := "Maaş:",
    "startDateLabel" := "İşe Başlama:",
    "loading" := "Çalışan Yönetim Sistemi Yükleniyor...",
    "demoTitle" := "Çalışan Yönetim Sistemi",
    "demoSubtitle" := "Bileşen Demosu & Dokümantasyon",
    "liveApplication" := "Canlı Uygulama",
    "liveAppDescription" := "Tüm özelliklerle entegre edilmiş tam çalışan yönetim uygulamasını deneyimleyin.",
    "launchApp" := "Tam Uygulamayı Başlat",
    "keyFeatures" := "Temel Özellikler",
    "technicalImplementation" := "Teknik Uygulama",
    "componentArchitecture" := "Bileşen Mimarisi",
    "designSystem" := "Tasarım Sistemi",
    "gettingStarted" := "Başlarken",
    "startUsingApp" := "Uygulamayı Kullanmaya Başla"
  ]

  /** The catalogue the application ships: English and Turkish. */
  const Languages: Catalog := map["en" := English, "tr" := Turkish]

  /** The codes of the languages the catalogue has a table for. */
  const LanguageCodes: set<string> := {"en", "tr"}

  lemma LanguagesAreEnglishAndTurkish()
    ensures Languages.Keys == LanguageCodes
  {
  }

  /** The entry of `lang`'s table for `key` when it is truthy, that is present and non-empty. */
  function Entry(cat: Catalog, lang: string, key: string): (r: Option<string>)
    ensures r.Some? <==> lang in cat && key in cat[lang] && cat[lang][key] != ""
    ensures r.Some? ==> r.value == cat[lang][key] && r.value != ""
  {
    if lang in cat && key in cat[lang] && cat[lang][key] != "" then Some(cat[lang][key]) else None
  }

  /** The translation before substitution: the current language's entry, else English's, else the key. */
  function Lookup(cat: Catalog, lang: string, key: string): (r: string)
    ensures Entry(cat, lang, key).Some? ==> r == Entry(cat, lang, key).value
    ensures Entry(cat, lang, key).None? && Entry(cat, "en", key).Some? ==> r == Entry(cat, "en", key).value
    ensures Entry(cat, lang, key).None? && Entry(cat, "en", key).None? ==> r == key
  {
    match Entry(cat, lang, key)
    case Some(v) => v
    case None => Entry(cat, "en", key).GetOr(key)
  }

  /** The regular expression `{name}` the source builds for one placeholder. */
  function Placeholder(name: string): (p: string)
    ensures |p| == |name| + 2 && p[0] == '{' && p[|p| - 1] == '}'
    ensures p[1..|p| - 1] == name
  {
    "{" + name + "}"
  }

  /** Applies the replacements in key order, each to every occurrence of its placeholder. */
  function Substitute(text: string, replacements: seq<(string, string)>): string
    decreases |replacements|
  {
    if |replacements| == 0 then text
    else Substitute(ReplaceAll(text, Placeholder(replacements[0].0), replacements[0].1), replacements[1..])
  }

  /** `t(key, replacements)`. */
  function T(cat: Catalog, lang: string, key: string, replacements: seq<(string, string)>): (r: string)
    ensures replacements == [] ==> r == Lookup(cat, lang, key)
  {
    Substitute(Lookup(cat, lang, key), replacements)
  }

  /** A translation without placeholders is shown as it is, whatever replacements are passed. */
  lemma UnbracedTranslationIgnoresReplacements(cat: Catalog, lang: string, key: string, replacements: seq<(string, string)>)
    requires '{' !in Lookup(cat, lang, key)
    ensures T(cat, lang, key, replacements) == Lookup(cat, lang, key)
  {
    NoBraceNoSubstitution(Lookup(cat, lang, key), replacements);
  }

  /** The translation of a non-empty key is never empty, so it is always truthy. */
  lemma TranslationTruthy(cat: Catalog, lang: string, key: string)
    requires key != ""
    ensures T(cat, lang, key, []) != ""
  {
  }

  /** A language without a table reads the English table. */
  lemma UnknownLanguageFallsBack(cat: Catalog, lang: string, key: string, replacements: seq<(string, string)>)
    requires lang !in cat
    ensures T(cat, lang, key, replacements) == T(cat, "en", key, replacements)
  {
  }

  /** A key missing from both tables translates to itself. */
  lemma MissingKeyIsItself(cat: Catalog, lang: string, key: string)
    requires Entry(cat, lang, key).None? && Entry(cat, "en", key).None?
    ensures T(cat, lang, key, []) == key
  {
  }

  /** With no replacements the translation is returned as it was looked up. */
  lemma NoReplacementsIsLookup(cat: Catalog, lang: string, key: string)
    ensures T(cat, lang, key, []) == Lookup(cat, lang, key)
  {
  }

  /** A text that is just the placeholder `{name}` becomes the value given for `name`. */
  lemma SubstitutePlaceholder(name: string, value: string)
    ensures Substitute(Placeholder(name), [(name, value)]) == value
  {
    var p := Placeholder(name);
    assert p <= p && p[|p|..] == [];
    assert ReplaceAll(p, p, value) == value + ReplaceAll([], p, value);
  }

  /** A template that opens with `{name}` and has no other brace gets the value in front of the rest. */
  lemma SubstituteLeadingPlaceholder(name: string, rest: string, value: string)
    requires '{' !in rest
    ensures Substitute(Placeholder(name) + rest, [(name, value)]) == value + rest
  {
    var p := Placeholder(name);
    var text := p + rest;
    assert p <= text && text[|p|..] == rest;
    assert !Contains(rest, p) by {
      if Contains(rest, p) {
        var i :| OccursAt(rest, p, i);
        BraceAt(rest, p, i);
        assert false;
      }
    }
    ReplaceAllAbsent(rest, p, value);
    assert ReplaceAll(text, p, value) == value + ReplaceAll(rest, p, value);
    assert Substitute(text, [(name, value)]) == Substitute(ReplaceAll(text, p, value), []);
  }

  lemma BraceAt(rest: string, p: string, i: int)
    requires |p| > 0 && p[0] == '{' && OccursAt(rest, p, i)
    ensures '{' in rest
  {
    assert rest[i..i + |p|][0] == rest[i];
  }

  /** A text with no `{` holds no placeholder, so no replacement changes it. */
  lemma NoBraceNoSubstitution(text: string, replacements: seq<(string, string)>)
    requires '{' !in text
    ensures Substitute(text, replacements) == text
  {
    forall i | 0 <= i < |replacements|
      ensures !Contains(text, Placeholder(replacements[i].0))
    {
      var p := Placeholder(replacements[i].0);
      if Contains(text, p) {
        var j :| OccursAt(text, p, j);
        BraceAt(text, p, j);
      }
    }
    SubstituteAbsent(text, replacements);
  }

  /** Placeholders that do not occur in the text leave it unchanged. */
  lemma {:induction false} SubstituteAbsent(text: string, replacements: seq<(string, string)>)
    requires forall i :: 0 <= i < |replacements| ==> !Contains(text, Placeholder(replacements[i].0))
    ensures Substitute(text, replacements) == text
    decreases |replacements|
  {
    if |replacements| > 0 {
      ReplaceAllAbsent(text, Placeholder(replacements[0].0), replacements[0].1);
      SubstituteAbsent(text, replacements[1..]);
    }
  }

  /** `detectBrowserLanguage`, given the browser's language string. */
  function DetectLanguage(browserLanguage: string): (lang: string)
    ensures lang in LanguageCodes
  {
    if "tr" <= browserLanguage then "tr" else "en"
  }

  /** The manager's state: the current language and the registered callbacks, in order. */
  datatype Manager<L> = Manager(currentLanguage: string, listeners: seq<L>)

  /**
   The names of the methods the manager defines. A caller that invokes any
   other name on the manager gets a TypeError.
   */
  const ManagerMethods: set<string> := {
    "detectBrowserLanguage", "getStoredLanguage", "storeLanguage", "setLanguage", "getLanguage",
    "t", "addListener", "removeListener", "notifyListeners", "getAvailableLanguages",
    "getDepartments", "formatCurrency", "formatDate"}

  /** The constructor: a truthy stored language wins, otherwise the detected one. */
  function InitManager<L>(stored: Option<string>, browserLanguage: string): (m: Manager<L>)
    ensures m.listeners == []
    ensures stored.Some? && stored.value != "" ==> m.currentLanguage == stored.value
    ensures (stored.None? || stored.value == "") ==> m.currentLanguage == DetectLanguage(browserLanguage)
    ensures (stored.None? || stored.value == "") ==> m.currentLanguage in LanguageCodes
  {
    if stored.Some? && stored.value != "" then Manager(stored.value, [])
    else Manager(DetectLanguage(browserLanguage), [])
  }

  /**
   A manager started without a stored language reads the table of the
   browser's language: Turkish for a browser language beginning with "tr",
   such as "tr-TR", and English for any other, such as "en-US".
   */
  lemma DetectedLanguageIsRead<L>(cat: Catalog, browserLanguage: string, key: string)
    requires "tr" in cat && "en" in cat && key in cat["tr"] && key in cat["en"]
    requires cat["tr"][key] != "" && cat["en"][key] != ""
    ensures var m: Manager<L> := InitManager(None, browserLanguage);
      T(cat, m.currentLanguage, key, []) == if "tr" <= browserLanguage then cat["tr"][key] else cat["en"][key]
    ensures DetectLanguage("tr-TR") == "tr" && DetectLanguage("en-US") == "en"
  {
    assert "tr" <= "tr-TR";
    assert !("tr" <= "en-US") by {
      assert "en-US"[0] != "tr"[0];
    }
  }

  /** The new state of the manager and the callbacks called with the new language, in call order. */
  datatype SetLanguageOutcome<L> = SetLanguageOutcome(manager: Manager<L>, notified: seq<L>)

  /** `setLanguage`: only a language with a table is taken, and only then are listeners notified. */
  function SetLanguage<L>(cat: Catalog, m: Manager<L>, lang: string): (r: SetLanguageOutcome<L>)
    ensures lang in cat ==> r.manager.currentLanguage == lang && r.notified == m.listeners
    ensures lang !in cat ==> r.manager == m && r.notified == []
    ensures r.manager.listeners == m.listeners
  {
    if lang in cat then SetLanguageOutcome(m.(currentLanguage := lang), m.listeners)
    else SetLanguageOutcome(m, [])
  }

  /** After an accepted switch, `t` reads the new language's table. */
  lemma SetLanguageThenTranslate<L>(cat: Catalog, m: Manager<L>, lang: string, key: string)
    requires lang in cat && key in cat[lang] && cat[lang][key] != ""
    ensures T(cat, SetLanguage(cat, m, lang).manager.currentLanguage, key, []) == cat[lang][key]
  {
  }

  /** `addListener`: appends a callback that is not yet registered. */
  function AddListener<L(==,!new)>(listeners: seq<L>, callback: L): (r: seq<L>)
    ensures forall x :: x in r <==> x in listeners || x == callback
    ensures callback in listeners ==> r == listeners
    ensures callback !in listeners ==> r == listeners + [callback]
    ensures NoDup(listeners) ==> NoDup(r)
  {
    if callback in listeners then listeners else listeners + [callback]
  }

  /** `removeListener`: splices out the first occurrence of the callback, if any. */
  function RemoveListener<L(==,!new)>(listeners: seq<L>, callback: L): (r: seq<L>)
    ensures callback !in listeners ==> r == listeners
    ensures callback in listeners ==> |r| == |listeners| - 1
    ensures IsSubsequence(r, listeners)
    ensures NoDup(listeners) ==> NoDup(r) && callback !in r
    ensures forall x :: x != callback ==> (x in r <==> x in listeners)
  {
    var i := IndexOf(listeners, callback);
    if i < |listeners| then
      var r := listeners[..i] + listeners[i + 1..];
      RemoveAtIsSubsequence(listeners, i);
      assert forall x :: x != callback && x in listeners ==> x in r by {
        forall x | x != callback && x in listeners ensures x in r {
          var k :| 0 <= k < |listeners| && listeners[k] == x;
          if k < i { assert r[k] == x; } else { assert k > i && r[k - 1] == x; }
        }
      }
      r
    else
      SubsequenceReflexive(listeners);
      listeners
  }

  lemma {:induction false} RemoveAtIsSubsequence<L>(s: seq<L>, i: nat)
    requires i < |s|
    ensures IsSubsequence(s[..i] + s[i + 1..], s)
  {
    if i == 0 {
      assert s[..i] + s[i + 1..] == s[1..];
      SubsequenceReflexive(s[1..]);
      SubsequenceDropHead(s[1..], s);
    } else {
      RemoveAtIsSubsequence(s[1..], i - 1);
      var r := s[..i] + s[i + 1..];
      assert r[0] == s[0];
      assert r[1..] == s[1..][..i - 1] + s[1..][i..];
    }
  }

  /** Registering a new callback and removing it again restores the registry. */
  lemma AddThenRemove<L(!new)>(listeners: seq<L>, callback: L)
    requires callback !in listeners
    ensures RemoveListener(AddListener(listeners, callback), callback) == listeners
  {
    var a := AddListener(listeners, callback);
    assert IndexOf(a, callback) == |listeners|;
    assert a[..|listeners|] == listeners;
  }

  /**
   One entry of `getDepartments`: the key, the stored value, and the source's
   `label` (`label` is a reserved word here), the key's translation in the
   current language.
   */
  datatype DepartmentOption = DepartmentOption(key: string, value: string, labelText: string)

  const DepartmentValues: seq<string> := ["Engineering", "Design", "Product", "Marketing", "Sales", "HR"]

  /** The translation keys of the departments, in the same order as their values. */
  const DepartmentKeys: seq<string> := ["engineering", "design", "product", "marketing", "sales", "hr"]

  /** `getDepartments`. */
  function GetDepartments(cat: Catalog, lang: string): (r: seq<DepartmentOption>)
    ensures |r| == |DepartmentValues|
    ensures forall i :: 0 <= i < |r| ==> r[i].key == DepartmentKeys[i] && r[i].value == DepartmentValues[i]
    ensures forall i :: 0 <= i < |r| ==> r[i].labelText == T(cat, lang, DepartmentKeys[i], [])
  {
    [ DepartmentOption("engineering", "Engineering", T(cat, lang, "engineering", [])),
      DepartmentOption("design", "Design", T(cat, lang, "design", [])),
      DepartmentOption("product", "Product", T(cat, lang, "product", [])),
      DepartmentOption("marketing", "Marketing", T(cat, lang, "marketing", [])),
      DepartmentOption("sales", "Sales", T(cat, lang, "sales", [])),
      DepartmentOption("hr", "HR", T(cat, lang, "hr", [])) ]
  }

  /** Switching language changes the labels only: keys and values stay put. */
  lemma DepartmentsLanguageIndependent(cat: Catalog, lang1: string, lang2: string)
    ensures forall i :: 0 <= i < |DepartmentValues| ==>
      GetDepartments(cat, lang1)[i].key == GetDepartments(cat, lang2)[i].key &&
      GetDepartments(cat, lang1)[i].value == GetDepartments(cat, lang2)[i].value
  {
  }
}
