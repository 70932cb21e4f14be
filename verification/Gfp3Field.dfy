// The cubic extension of verifier-py/scalar_verifier/gfp3.py is a field: X^3 - X - 1 has no root modulo P,
// every element other than zero has an inverse, and ef_inv computes it.
module Gfp3Field {
  import opened Results
  import opened ModArith
  import opened NumberTheory
  import opened Goldilocks
  import opened Gfp3

  // ----- A certificate for X^(2^32) and X^(2^64) -----

  /** w^(2^k), by repeated squaring. */
  function EfSquares(w: EF, k: nat): EF
    decreases k, w
  {
    if k == 0 then w else EfMul(EfSquares(w, k - 1), EfSquares(w, k - 1))
  }

  /** A product reduced, by its quotients modulo P. */
  lemma ProductByQuotients(a: EF, b: EF, c: EF, q0: int, q1: int, q2: int)
    requires Canonical(c)
    requires a.c0 * b.c0 + a.c1 * b.c2 + a.c2 * b.c1 == q0 * P + c.c0
    requires a.c0 * b.c1 + a.c1 * (b.c0 + b.c2) + a.c2 * (b.c1 + b.c2) == q1 * P + c.c1
    requires a.c0 * b.c2 + a.c1 * b.c1 + a.c2 * (b.c0 + b.c2) == q2 * P + c.c2
    ensures EfMul(a, b) == c
  {
    hide EfMul, ZMul;
    RedMul(a, b);
    DistributeThree(a, b);
    DivModUnique(ZMul(a, b).c0, q0, c.c0, P);
    DivModUnique(ZMul(a, b).c1, q1, c.c1, P);
    DivModUnique(ZMul(a, b).c2, q2, c.c2, P);
  }

  lemma SquareStep(w: EF, k: nat, a: EF, b: EF, q0: int, q1: int, q2: int)
    requires EfSquares(w, k) == a && Canonical(b)
    requires a.c0 * a.c0 + a.c1 * a.c2 + a.c2 * a.c1 == q0 * P + b.c0
    requires a.c0 * a.c1 + a.c1 * (a.c0 + a.c2) + a.c2 * (a.c1 + a.c2) == q1 * P + b.c1
    requires a.c0 * a.c2 + a.c1 * a.c1 + a.c2 * (a.c0 + a.c2) == q2 * P + b.c2
    ensures EfSquares(w, k + 1) == b
  {
    hide EfMul;
    ProductByQuotients(a, a, b, q0, q1, q2);
  }

  lemma Squares0To8(w: EF, k: nat)
    requires EfSquares(w, k) == EF(0, 1, 0)
    ensures EfSquares(w, k + 8) == EF(17372766340139064469, 9557085918088446932, 15354445961624571197)
  {
    hide EfSquares;
    SquareStep(w, k + 0, EF(0, 1, 0),
               EF(0, 0, 1),
               0, 0, 0);
    SquareStep(w, k + 1, EF(0, 0, 1),
               EF(0, 1, 1),
               0, 0, 0);
    SquareStep(w, k + 2, EF(0, 1, 1),
               EF(2, 3, 2),
               0, 0, 0);
    SquareStep(w, k + 3, EF(2, 3, 2),
               EF(16, 28, 21),
               0, 0, 0);
    SquareStep(w, k + 4, EF(16, 28, 21),
               EF(1432, 2513, 1897),
               0, 0, 0);
    SquareStep(w, k + 5, EF(1432, 2513, 1897),
               EF(11584946, 20330163, 15346786),
               0, 0, 0);
    SquareStep(w, k + 6, EF(11584946, 20330163, 15346786),
               EF(758216295635152, 1330576843394428, 1004422742303477),
               0, 0, 0);
    SquareStep(w, k + 7, EF(758216295635152, 1330576843394428, 1004422742303477),
               EF(17372766340139064469, 9557085918088446932, 15354445961624571197),
               176064416707, 308971512701, 233235694444);
  }

  lemma Squares8To16(w: EF, k: nat)
    requires EfSquares(w, k) == EF(17372766340139064469, 9557085918088446932, 15354445961624571197)
    ensures EfSquares(w, k + 8) == EF(385693368393256935, 8603804293785492277, 6124110923987225995)
  {
    hide EfSquares;
    SquareStep(w, k + 0, EF(17372766340139064469, 9557085918088446932, 15354445961624571197),
               EF(3509459721280925154, 11514812652314720115, 1200991702222341375),
               32271306341582773215, 46691848014061795558, 46652965029653390364);
    SquareStep(w, k + 1, EF(3509459721280925154, 11514812652314720115, 1200991702222341375),
               EF(6841103724816679185, 11222150267719621178, 15563510825788724668),
               2167032636275493261, 5958900495074410477, 7722932294160627242);
    SquareStep(w, k + 2, EF(6841103724816679185, 11222150267719621178, 15563510825788724668),
               EF(9440462931311328392, 13857090502216904544, 17589633011169988068),
               21473318708369534921, 40390801150338231188, 31501641017629181000);
    SquareStep(w, k + 3, EF(9440462931311328392, 13857090502216904544, 17589633011169988068),
               EF(16819528958367300955, 8615056102248217534, 569232632836573868),
               31257798734608412133, 57382059240461529170, 45185356307453980324);
    SquareStep(w, k + 4, EF(16819528958367300955, 8615056102248217534, 569232632836573868),
               EF(17140222094744348464, 14165951618730066331, 17152841575636035006),
               15867542554618443385, 16259473106761942617, 5079035443148991774);
    SquareStep(w, k + 5, EF(17140222094744348464, 14165951618730066331, 17152841575636035006),
               EF(8418318907588004139, 22428703637656057, 6582359677925617020),
               42270866787729641449, 68619574868114680639, 58704191028664707745);
    SquareStep(w, k + 6, EF(8418318907588004139, 22428703637656057, 6582359677925617020),
               EF(767722960220274515, 14627373815190563013, 8710411886900515978),
               3857773520951623966, 2385263779490048553, 8356638291435471711);
    SquareStep(w, k + 7, EF(767722960220274515, 14627373815190563013, 8710411886900515978),
               EF(385693368393256935, 8603804293785492277, 6124110923987225995),
               13845820112779469158, 19144393008858227025, 16436814281421369838);
  }

  lemma Squares16To24(w: EF, k: nat)
    requires EfSquares(w, k) == EF(385693368393256935, 8603804293785492277, 6124110923987225995)
    ensures EfSquares(w, k + 8) == EF(14764577181388025928, 17746581676041222082, 12108162915781342237)
  {
    hide EfSquares;
    SquareStep(w, k + 0, EF(385693368393256935, 8603804293785492277, 6124110923987225995),
               EF(2853122117199794220, 7512198633866561946, 16971451762190044101),
               5720796185178030035, 8105652590593875219, 6302155027411505543);
    SquareStep(w, k + 1, EF(2853122117199794220, 7512198633866561946, 16971451762190044101),
               EF(12151902958023338546, 13484842841101145280, 3582304359794017908),
               14264096596712726626, 31760751184011788493, 23923276126007581569);
    SquareStep(w, k + 2, EF(12151902958023338546, 13484842841101145280, 3582304359794017908),
               EF(10224992181480688384, 16633454005149103480, 13033421829960845217),
               13242573712933631172, 23699549833902725144, 15273021613346357823);
    SquareStep(w, k + 3, EF(10224992181480688384, 16633454005149103480, 13033421829960845217),
               EF(13449938289856480782, 7374674915123898758, 5845395811342087090),
               29172200154297420514, 51152962302235814571, 38655881312951893455);
    SquareStep(w, k + 4, EF(13449938289856480782, 7374674915123898758, 5845395811342087090),
               EF(10696057721481665275, 8798528314102901544, 16917761466840770533),
               14480421407352139809, 17280138096015733148, 13324568674816930171);
    SquareStep(w, k + 5, EF(10696057721481665275, 8798528314102901544, 16917761466840770533),
               EF(13537386044881551521, 3705677173898304428, 8032460359406040182),
               22340444242354640648, 41857391750075505965, 39331139259481920433);
    SquareStep(w, k + 6, EF(13537386044881551521, 3705677173898304428, 8032460359406040182),
               EF(13859138746956445181, 1776075322834998865, 2909434198963183692),
               13161793215253664212, 12163783132178088187, 16031528121208471060);
    SquareStep(w, k + 7, EF(13859138746956445181, 1776075322834998865, 2909434198963183692),
               EF(14764577181388025928, 17746581676041222082, 12108162915781342237),
               10972693859366505433, 3687875991498392832, 5001628202811061836);
  }

  lemma Squares24To32(w: EF, k: nat)
    requires EfSquares(w, k) == EF(14764577181388025928, 17746581676041222082, 12108162915781342237)
    ensures EfSquares(w, k + 8) == EF(4313033625783026847, 4123756567369592585, 13756005300681981762)
  {
    hide EfSquares;
    SquareStep(w, k + 0, EF(14764577181388025928, 17746581676041222082, 12108162915781342237),
               EF(4003639200154987791, 15739832279603431212, 2427710258508434300),
               35114583970545359141, 59653137650806723377, 44403097863071653665);
    SquareStep(w, k + 1, EF(4003639200154987791, 15739832279603431212, 2427710258508434300),
               EF(1428184821664116465, 3486696471522010340, 16316167142954428440),
               5011867193576919696, 11294703278638827764, 14803449767444241424);
    SquareStep(w, k + 2, EF(1428184821664116465, 3486696471522010340, 16316167142954428440),
               EF(13079628040886172071, 557744702066876284, 11172352635674949692),
               6278547382736711674, 21139538096175329996, 17617166792202785348);
    SquareStep(w, k + 3, EF(13079628040886172071, 557744702066876284, 11172352635674949692),
               EF(9787163918615041340, 15146493807739145252, 5331292245756089361),
               9949685970685327317, 8233121808289566676, 22626918584136242263);
    SquareStep(w, k + 4, EF(9787163918615041340, 15146493807739145252, 5331292245756089361),
               EF(9799591891816256491, 17330899312865648572, 13450600588678059457),
               13947683481532141293, 26368115724475457293, 19634652734873987688);
    SquareStep(w, k + 5, EF(9799591891816256491, 17330899312865648572, 13450600588678059457),
               EF(15598322179228703257, 9325043480286899252, 4648274645770861737),
               30479850976969511192, 53495193636946766829, 40381083909633828670);
    SquareStep(w, k + 6, EF(15598322179228703257, 9325043480286899252, 4648274645770861737),
               EF(628221846932513290, 4594102871486117174, 5907837206726511540),
               17889248093078122767, 21641068316567396651, 13746245036095026031);
    SquareStep(w, k + 7, EF(628221846932513290, 4594102871486117174, 5907837206726511540),
               EF(4313033625783026847, 4123756567369592585, 13756005300681981762),
               2964050795880537013, 5147639899870478255, 3438611508841994434);
  }

  lemma Squares32To40(w: EF, k: nat)
    requires EfSquares(w, k) == EF(4313033625783026847, 4123756567369592585, 13756005300681981762)
    ensures EfSquares(w, k + 8) == EF(4358114576167036254, 14139296206291393548, 1451789787186608704)
  {
    hide EfSquares;
    SquareStep(w, k + 0, EF(4313033625783026847, 4123756567369592585, 13756005300681981762),
               EF(12607646404735112778, 13327610258238037934, 17734291532653803390),
               7158720962308141851, 18336694889769734440, 17612499835924006867);
    SquareStep(w, k + 1, EF(12607646404735112778, 13327610258238037934, 17734291532653803390),
               EF(925354551479961996, 12030666936299136886, 7461415465917693229),
               34242584870059292448, 60892921729527572078, 50919861065478077427);
    SquareStep(w, k + 2, EF(925354551479961996, 12030666936299136886, 7461415465917693229),
               EF(13044331408263984252, 11461860201702712917, 573795447562038500),
               9778847099236813712, 13957454675333850144, 11612812342646393505);
    SquareStep(w, k + 3, EF(13044331408263984252, 11461860201702712917, 573795447562038500),
               EF(3212809479733501104, 18163099207507449997, 9473894190016332280),
               9937152464819699400, 16941058676845558851, 7951161240390049329);
    SquareStep(w, k + 4, EF(3212809479733501104, 18163099207507449997, 9473894190016332280),
               EF(6791493080144351004, 14727176535711091984, 3066030207150266780),
               19216003839408444692, 29848865674696235072, 26049500999445805389);
    SquareStep(w, k + 5, EF(6791493080144351004, 14727176535711091984, 3066030207150266780),
               EF(873402866144866480, 10250051513113493641, 5897162659479242306),
               7396010590991410656, 16249345218698665351, 14524845946128503790);
    SquareStep(w, k + 6, EF(873402866144866480, 10250051513113493641, 5897162659479242306),
               EF(6961751116629775684, 8264568878050814716, 3483752813938653528),
               6594945654937687648, 9409455544041688332, 8139175153440756669);
    SquareStep(w, k + 7, EF(6961751116629775684, 8264568878050814716, 3483752813938653528),
               EF(4358114576167036254, 14139296206291393548, 1451789787186608704),
               5748949970825943538, 10017578515402286420, 6990158914139628240);
  }

  lemma Squares40To48(w: EF, k: nat)
    requires EfSquares(w, k) == EF(4358114576167036254, 14139296206291393548, 1451789787186608704)
    ensures EfSquares(w, k + 8) == EF(8854585105112987765, 13589489451603127301, 9357132992060661220)
  {
    hide EfSquares;
    SquareStep(w, k + 0, EF(4358114576167036254, 14139296206291393548, 1451789787186608704),
               EF(14292943501030182470, 5274624153182619279, 2630426797643177756),
               3255194200865044030, 9020757831700336705, 11637908698343823476);
    SquareStep(w, k + 1, EF(14292943501030182470, 5274624153182619279, 2630426797643177756),
               EF(6900172909268517948, 12021914562984351733, 5679212788924843667),
               12578765037913802800, 10053155174766640791, 5959528027604114350);
    SquareStep(w, k + 2, EF(6900172909268517948, 12021914562984351733, 5679212788924843667),
               EF(11559249486530646911, 5799295627439068525, 10782907988370352600),
               9983464146937272815, 18144668613572052274, 13831979625545985010);
    SquareStep(w, k + 3, EF(11559249486530646911, 5799295627439068525, 10782907988370352600),
               EF(3927598984488543255, 18274156811450324139, 12277857525045962116),
               14023222201951241946, 20350944078613861291, 21640002171316397429);
    SquareStep(w, k + 4, EF(3927598984488543255, 18274156811450324139, 12277857525045962116),
               EF(8775030492173327093, 2935290626899303650, 311936205690203242),
               25162219385654238580, 40279622762807270464, 31503423687244646295);
    SquareStep(w, k + 5, EF(8775030492173327093, 2935290626899303650, 311936205690203242),
               EF(15468691063565846067, 9976909525582568813, 17672104663686149782),
               4273513346498085742, 2897155202331937331, 769118639066277814);
    SquareStep(w, k + 6, EF(15468691063565846067, 9976909525582568813, 17672104663686149782),
               EF(17532020344685104948, 18107403598486519936, 748845027959109220),
               32087309267432756913, 52778350517245947022, 51964219717582016941);
    SquareStep(w, k + 7, EF(17532020344685104948, 18107403598486519936, 748845027959109220),
               EF(8854585105112987765, 13589489451603127301, 9357132992060661220),
               18132794297775427099, 35919552049222845195, 19228128560252144076);
  }

  lemma Squares48To56(w: EF, k: nat)
    requires EfSquares(w, k) == EF(8854585105112987765, 13589489451603127301, 9357132992060661220)
    ensures EfSquares(w, k + 8) == EF(4715927453802294321, 9424413537322174545, 10212156649832762384)
  {
    hide EfSquares;
    SquareStep(w, k + 0, EF(8854585105112987765, 13589489451603127301, 9357132992060661220),
               EF(5502671418524984555, 13850104363691969497, 138165383596815434),
               18036841424013953910, 31579114319214337713, 23740624392820787527);
    SquareStep(w, k + 1, EF(5502671418524984555, 13850104363691969497, 138165383596815434),
               EF(13658946683378723015, 16220459973757844118, 15688061723879106835),
               1848922637861750886, 8471492091019539624, 10482339715098339870);
    SquareStep(w, k + 2, EF(13658946683378723015, 16220459973757844118, 15688061723879106835),
               EF(1954228645075490959, 2246885487649248541, 7915590249961340229),
               37703237839603298406, 64952342081752856004, 50837339976513287570);
    SquareStep(w, k + 3, EF(1954228645075490959, 2246885487649248541, 7915590249961340229),
               EF(4070455656583887321, 11541362485559587522, 7330029841607960957),
               2135328552650955178, 5800984405951495135, 5347437436493460347);
    SquareStep(w, k + 4, EF(4070455656583887321, 11541362485559587522, 7330029841607960957),
               EF(748266820931762279, 2106639283174989949, 5620466764628126715),
               10070377266422601470, 17178294856720190692, 13368511398942782972);
    SquareStep(w, k + 5, EF(748266820931762279, 2106639283174989949, 5620466764628126715),
               EF(2410863489923985612, 3941615857195757976, 5548256865122182134),
               1314079888373857219, 3167111504516914741, 2409031813458531622);
    SquareStep(w, k + 6, EF(2410863489923985612, 3941615857195757976, 5548256865122182134),
               EF(3630708328067381459, 1747863527317022142, 9845007181724105359),
               2686135670301116893, 5070094965864756486, 3961223148637622309);
    SquareStep(w, k + 7, EF(3630708328067381459, 1747863527317022142, 9845007181724105359),
               EF(4715927453802294321, 9424413537322174545, 10212156649832762384),
               2580265695811097596, 7807968124582964488, 9295293077316690063);
  }

  lemma Squares56To64(w: EF, k: nat)
    requires EfSquares(w, k) == EF(4715927453802294321, 9424413537322174545, 10212156649832762384)
    ensures EfSquares(w, k + 8) == EF(15890331032454968110, 4393904361445481836, 2012697817756225988)
  {
    hide EfSquares;
    SquareStep(w, k + 0, EF(4715927453802294321, 9424413537322174545, 10212156649832762384),
               EF(9706472742729618523, 13146487865350974557, 18171348228166988615),
               11640381939131969318, 20906942591854755269, 15689885038195905914);
    SquareStep(w, k + 1, EF(9706472742729618523, 13146487865350974557, 18171348228166988615),
               EF(15974640668512086343, 7209491194420303510, 6060780110821425449),
               31007880247608055976, 57635578541188416207, 46392329668234445515);
    SquareStep(w, k + 2, EF(15974640668512086343, 7209491194420303510, 6060780110821425449),
               EF(15026713309929068331, 13862660483710538649, 12503989524729962017),
               18571267909368341138, 19215390985303556152, 15306082561462411538);
    SquareStep(w, k + 3, EF(15026713309929068331, 13862660483710538649, 12503989524729962017),
               EF(13211469218323652638, 11052365528177614630, 6686435503645086313),
               31034161567536532109, 49854181481759612403, 39264969396906658911);
    SquareStep(w, k + 4, EF(13211469218323652638, 11052365528177614630, 6686435503645086313),
               EF(14295561104199821264, 16851938212622414037, 9153851763062612586),
               17474345403583348960, 26267304971824361552, 18623258169222469351);
    SquareStep(w, k + 5, EF(14295561104199821264, 16851938212622414037, 9153851763062612586),
               EF(11527829033624401907, 1113397040867984224, 1261379089236372842),
               27803462442543617393, 47386634320591213832, 34125248102791245811);
    SquareStep(w, k + 6, EF(11527829033624401907, 1113397040867984224, 1261379089236372842),
               EF(17973959301433576331, 16711574814292626461, 2598692120067411561),
               7356294054309892254, 1630098517748504455, 1729988502681094327);
    SquareStep(w, k + 7, EF(17973959301433576331, 16711574814292626461, 2598692120067411561),
               EF(15890331032454968110, 4393904361445481836, 2012697817756225988),
               22221790848006170133, 37641114596679650029, 20569890539319311516);
  }

  const X32 := EF(4313033625783026847, 4123756567369592585, 13756005300681981762)
  const X64 := EF(15890331032454968110, 4393904361445481836, 2012697817756225988)

  lemma Squares32(w: EF, k: nat)
    requires w == EF(0, 1, 0) && k == 0
    ensures EfSquares(w, k + 32) == X32 && EfSquares(w, k + 64) == X64
  {
    hide EfMul;
    Squares0To8(w, k);
    Squares8To16(w, k + 8);
    Squares16To24(w, k + 16);
    Squares24To32(w, k + 24);
    Squares32To40(w, k + 32);
    Squares40To48(w, k + 40);
    Squares48To56(w, k + 48);
    Squares56To64(w, k + 56);
  }

  // ----- X^3 - X - 1 has no root -----

  /** The value of c0 + c1*X + c2*X^2 at r. */
  function At(e: EF, r: int): int { e.c0 + e.c1 * r + e.c2 * (r * r) }

  lemma AtRed(e: EF, r: int)
    ensures Cong(At(Red(e), r), At(e, r), P)
  {
    hide Cong;
    CongMod(e.c0, P);
    CongMod(e.c1, P);
    CongMod(e.c2, P);
    CongSelf(r, P);
    CongMul(e.c1 % P, e.c1, r, r, P);
    CongSelf(r * r, P);
    CongMul(e.c2 % P, e.c2, r * r, r * r, P);
    CongAdd(e.c0 % P, e.c0, (e.c1 % P) * r, e.c1 * r, P);
    CongAdd(e.c0 % P + (e.c1 % P) * r, e.c0 + e.c1 * r, (e.c2 % P) * (r * r), e.c2 * (r * r), P);
  }

  lemma ProductValue(a: EF, b: EF, r: int)
    ensures var p := Convolve(a, b);
      p[0] + p[1] * r + p[2] * (r * r) + p[3] * (r * r * r) + p[4] * (r * r * r * r) == At(a, r) * At(b, r)
  {
    var s, c, q := r * r, r * r * r, r * r * r * r;
    ScaleAt(a, r, b.c0);
    ScaleAt(a, r, b.c1);
    ScaleAt(a, r, b.c2);
    TimesPower(a.c0 * b.c1, a.c1 * b.c1, a.c2 * b.c1, r, s, r, s, c);
    TimesPower(a.c0 * b.c2, a.c1 * b.c2, a.c2 * b.c2, r, s, s, c, q);
    SplitFactor(At(a, r), b, r);
    Collect(a.c0 * b.c1, a.c1 * b.c0, r);
    Collect(a.c0 * b.c2, a.c1 * b.c1 + a.c2 * b.c0, s);
    Collect(a.c1 * b.c1, a.c2 * b.c0, s);
    Collect(a.c1 * b.c2, a.c2 * b.c1, c);
  }

  lemma ScaleAt(a: EF, r: int, t: int)
    ensures At(a, r) * t == a.c0 * t + (a.c1 * t) * r + (a.c2 * t) * (r * r)
  {
    MulDistributes(a.c0 + a.c1 * r, a.c2 * (r * r), t);
    MulDistributes(a.c0, a.c1 * r, t);
    MulSwap(a.c1, r, t, 1);
    MulSwap(a.c2, r * r, t, 1);
  }

  /** (x + y*r + z*s) * u, where v is r*u and w is s*u. */
  lemma TimesPower(x: int, y: int, z: int, r: int, s: int, u: int, v: int, w: int)
    requires v == r * u && w == s * u
    ensures (x + y * r + z * s) * u == x * u + y * v + z * w
  {
    MulDistributes(x + y * r, z * s, u);
    MulDistributes(x, y * r, u);
    MulAssoc(y, r, u);
    MulAssoc(z, s, u);
  }

  lemma SplitFactor(u: int, b: EF, r: int)
    ensures u * At(b, r) == u * b.c0 + (u * b.c1) * r + (u * b.c2) * (r * r)
  {
    MulDistributes(b.c0 + b.c1 * r, b.c2 * (r * r), u);
    MulDistributes(b.c0, b.c1 * r, u);
    MulAssoc(u, b.c1, r);
    MulAssoc(u, b.c2, r * r);
  }

  lemma Collect(x: int, y: int, s: int)
    ensures x * s + y * s == (x + y) * s
  {
  }

  ghost predicate Root(r: int) { Cong(r * r * r, r + 1, P) }

  /** Evaluation at a root is multiplicative. */
  lemma AtProduct(a: EF, b: EF, r: int)
    requires Root(r)
    ensures Cong(At(EfMul(a, b), r), At(a, r) * At(b, r), P)
  {
    hide Cong, At, EfMul, Convolve;
    RedMul(a, b);
    AtRed(ZMul(a, b), r);
    ProductValue(a, b, r);
    RemainderValue(a, b, r);
    CongTrans(At(EfMul(a, b), r), At(ZMul(a, b), r), At(a, r) * At(b, r), P);
  }

  lemma RemainderValue(a: EF, b: EF, r: int)
    requires Root(r)
    ensures |Convolve(a, b)| == 5
    ensures var p := Convolve(a, b);
      Cong(p[0] + p[1] * r + p[2] * (r * r) + p[3] * (r * r * r) + p[4] * (r * r * r * r), At(ZMul(a, b), r), P)
  {
    hide Convolve;
    ConvolveLength(a, b);
    var p := Convolve(a, b);
    ReduceCubicIsRemainder(p, r);
    var q := p[3] + p[4] * r;
    var k := CongWitness(r * r * r, r + 1, P);
    assert r * r * r - r - 1 == k * P;
    assert (r * r * r - r - 1) * q == (k * q) * P;
    CongIntro(p[0] + p[1] * r + p[2] * (r * r) + p[3] * (r * r * r) + p[4] * (r * r * r * r), At(ZMul(a, b), r),
              k * q, P);
  }

  lemma ConvolveLength(a: EF, b: EF)
    ensures |Convolve(a, b)| == 5
  {
  }

  lemma {:induction false} AtSquares(w: EF, k: nat, r: int)
    requires Root(r) && w == EF(0, 1, 0)
    ensures Cong(At(EfSquares(w, k), r), Pow(r, TwoPow(k)), P)
    decreases k
  {
    if k == 0 {
      PowFirst(r);
    } else {
      hide At, EfMul, Cong, Pow;
      AtSquares(w, k - 1, r);
      var a, n := EfSquares(w, k - 1), TwoPow(k - 1);
      AtProduct(a, a, r);
      CongMul(At(a, r), Pow(r, n), At(a, r), Pow(r, n), P);
      PowAdd(r, n, n);
      CongTrans(At(EfMul(a, a), r), At(a, r) * At(a, r), Pow(r, n) * Pow(r, n), P);
      assert TwoPow(k) == n + n;
    }
  }

  lemma PowFirst(r: int)
    ensures TwoPow(0) == 1 && Pow(r, 1) == r
  {
    assert Pow(r, 1) == r * Pow(r, 0);
  }

  /** The difference of the two powers of X, and its inverse. */
  const DIFFERENCE := EF(11577297406671941263, 270147794075889251, 6703436586488828547)
  const DIFFERENCE_INVERSE := EF(11161140678374918632, 4142166736113685814, 12619507027527961167)

  lemma DifferenceInvertible()
    ensures EfSub(X64, X32) == DIFFERENCE && EfMul(DIFFERENCE, DIFFERENCE_INVERSE) == ONE
  {
    hide EfMul;
    ProductByQuotients(DIFFERENCE, DIFFERENCE_INVERSE, ONE, 8694853056979291590, 9039004512774929278,
                       16622491531190604328);
  }

  lemma AtDifference(a: EF, b: EF, r: int)
    ensures Cong(At(EfSub(a, b), r), At(a, r) - At(b, r), P)
  {
    hide Cong;
    RedAdd(a, b);
    AtRed(ZSub(a, b), r);
    assert (a.c1 - b.c1) * r == a.c1 * r - b.c1 * r;
    assert (a.c2 - b.c2) * (r * r) == a.c2 * (r * r) - b.c2 * (r * r);
  }

  /** For r not divisible by P, r^(2^64) is r^(2^32). */
  lemma EqualPowers(r: int, t: nat)
    requires r % P != 0 && t == 32
    ensures Cong(Pow(r, TwoPow(t + t)), Pow(r, TwoPow(t)), P)
  {
    hide Pow, Cong;
    GoldilocksPrime();
    Fermat(r, P);
    TwoPow32();
    TwoPowAdd(t, t);
    assert TwoPow(t + t) == (P - 1) + TwoPow(t);
    PowAdd(r, P - 1, TwoPow(t));
    CongSelf(Pow(r, TwoPow(t)), P);
    CongMul(Pow(r, P - 1), 1, Pow(r, TwoPow(t)), Pow(r, TwoPow(t)), P);
  }

  lemma RootNotZero(r: int)
    requires Root(r)
    ensures r % P != 0
  {
    if r % P == 0 {
      ModSmall(0, P);
      ModSmall(1, P);
      CongMul(r, 0, r, 0, P);
      CongMul(r * r, 0, r, 0, P);
      CongAdd(r, 0, 1, 1, P);
    }
  }

  /** X^3 - X - 1 has no root modulo P, so it is irreducible. */
  lemma NoRoot(r: int)
    ensures !Root(r)
  {
    if Root(r) {
      hide Cong, At, EfMul, Root, EfSub, X32, X64, DIFFERENCE, DIFFERENCE_INVERSE;
      RootPowers(r, EF(0, 1, 0), 32);
      DifferenceInvertible();
      AtDifference(X64, X32, r);
      AtProduct(DIFFERENCE, DIFFERENCE_INVERSE, r);
      AtOne(r);
      VanishingUnit(At(X64, r), At(X32, r), At(DIFFERENCE, r), At(DIFFERENCE_INVERSE, r));
    }
  }

  /** At a root, the two reduced powers of X have the same value. */
  lemma RootPowers(r: int, w: EF, t: nat)
    requires Root(r) && w == EF(0, 1, 0) && t == 32
    ensures Cong(At(X64, r), At(X32, r), P)
  {
    hide Cong, At, EfMul, Root, Pow, TwoPow, EfSquares, X32, X64;
    RootNotZero(r);
    EqualPowers(r, t);
    Squares32(w, 0);
    AtSquares(w, t, r);
    AtSquares(w, t + t, r);
    var p, q := Pow(r, TwoPow(t + t)), Pow(r, TwoPow(t));
    CongTrans(At(X64, r), p, q, P);
    CongTrans(At(X64, r), q, At(X32, r), P);
  }

  lemma AtOne(r: int)
    ensures At(ONE, r) == 1
  {
  }

  lemma VanishingUnit(a: int, b: int, d: int, e: int)
    requires Cong(a, b, P) && Cong(d, a - b, P)
    ensures !Cong(1, d * e, P)
  {
    CongAdd(a, b, b, b, P);
    CongMul(d, 0, e, e, P);
    ModSmall(1, P);
    ModSmall(0, P);
  }

  // ----- Inverses -----

  lemma CubeScaled(u: int, v: int, t: int)
    ensures (u * t) * (u * t) * (u * t) == (u * u * u) * (t * t * t)
    ensures (u * (v * v) + v * v * v) * (t * t * t) == (u * t) * ((v * t) * (v * t)) + (v * t) * (v * t) * (v * t)
  {
    MulSwap(u, t, u, t);
    MulSwap(u * u, t * t, u, t);
    MulSwap(v, t, v, t);
    MulSwap(v * v, t * t, v, t);
    MulSwap(u, t, v * v, t * t);
    assert t * (t * t) == t * t * t;
  }

  lemma CubeUnits(x: int, e: int)
    requires Cong(e, 1, P)
    ensures Cong(x * (e * e) + e * e * e, x + 1, P)
  {
    hide Cong;
    CongMul(e, 1, e, 1, P);
    CongMul(e * e, 1, e, 1, P);
    CongScale(x, e * e, 1, P);
    CongAdd(x * (e * e), x, e * e * e, 1, P);
  }

  /** Homogeneous form: u^3 is not u*v^2 + v^3 unless v is zero. */
  lemma NoHomogeneousRoot(u: int, v: int)
    requires v % P != 0
    ensures !Cong(u * u * u, u * (v * v) + v * v * v, P)
  {
    if Cong(u * u * u, u * (v * v) + v * v * v, P) {
      hide Cong, Root;
      FInvCorrect(v);
      var t := FInv(v);
      CongSelf(t * t * t, P);
      CongMul(u * u * u, u * (v * v) + v * v * v, t * t * t, t * t * t, P);
      CubeScaled(u, v, t);
      CubeUnits(u * t, v * t);
      RootIntro(u * t, (u * (v * v) + v * v * v) * (t * t * t));
      NoRoot(u * t);
    }
  }

  lemma RootIntro(r: int, s: int)
    requires Cong(r * r * r, s, P) && Cong(s, r + 1, P)
    ensures Root(r)
  {
  }

  ghost predicate IsInverse(a: EF, b: EF) { EfMul(a, b) == ONE }

  lemma ScaledInverse(a: EF, w: EF, n: int) returns (b: EF)
    requires Red(ZMul(a, w)) == Red(FromBase(n)) && n % P != 0
    ensures IsInverse(a, b)
  {
    hide ZMul, Red, EfMul;
    FInvCorrect(n);
    var s := FInv(n);
    b := ZScale(s, w);
    RedMul(a, b);
    ZMulScale(a, w, s);
    ZScaleMul(s, a, w);
    RedScaleCong(s, ZMul(a, w), FromBase(n));
    UnitOf(s, n);
  }

  lemma UnitOf(s: int, n: int)
    requires Cong(n * s, 1, P)
    ensures Red(ZScale(s, FromBase(n))) == ONE
  {
    assert s * n == n * s && s * 0 == 0;
    ModSmall(1, P);
    ModSmall(0, P);
  }

  /** Elements of degree at most one. */
  lemma LinearInverse(a0: int, a1: int) returns (b: EF)
    requires Red(EF(a0, a1, 0)) != ZERO
    ensures IsInverse(EF(a0, a1, 0), b)
  {
    hide ZMul, EfMul, IsInverse;
    var a := EF(a0, a1, 0);
    if a1 % P == 0 {
      ModSmall(0, P);
      ZMulBase(a, 1);
      assert ZScale(1, a) == a;
      assert Red(a) == Red(FromBase(a0));
      b := ScaledInverse(a, ONE, a0);
    } else {
      var n := a0 * a0 * a0 - a0 * (a1 * a1) + a1 * a1 * a1;
      var w := EF(a0 * a0 - a1 * a1, -(a0 * a1), a1 * a1);
      LinearNorm(a0, a1);
      NormNotZero(a0, a1, n);
      b := ScaledInverse(a, w, n);
    }
  }

  lemma LinearNorm(a0: int, a1: int)
    ensures ZMul(EF(a0, a1, 0), EF(a0 * a0 - a1 * a1, -(a0 * a1), a1 * a1))
         == FromBase(a0 * a0 * a0 - a0 * (a1 * a1) + a1 * a1 * a1)
  {
    hide ZMul;
    var w0, w1, w2 := a0 * a0 - a1 * a1, -(a0 * a1), a1 * a1;
    DistributeThree(EF(a0, a1, 0), EF(w0, w1, w2));
    assert a0 * w0 == a0 * a0 * a0 - a0 * (a1 * a1);
    assert a1 * w2 == a1 * a1 * a1;
    assert a0 * w1 == -(a1 * (a0 * a0)) && a1 * (w0 + w2) == a1 * (a0 * a0);
    assert a0 * w2 == a0 * (a1 * a1) && a1 * w1 == -(a0 * (a1 * a1));
  }

  lemma NormNotZero(a0: int, a1: int, n: int)
    requires a1 % P != 0 && n == a0 * a0 * a0 - a0 * (a1 * a1) + a1 * a1 * a1
    ensures n % P != 0
  {
    if n % P == 0 {
      hide Cong;
      var u := -a0;
      NegatedCube(a0, a1);
      ZeroCong(n, u * u * u, u * (a1 * a1) + a1 * a1 * a1);
      NoHomogeneousRoot(u, a1);
    }
  }

  lemma NegatedCube(a: int, v: int)
    ensures (-a) * (-a) * (-a) == -(a * a * a) && (-a) * (v * v) == -(a * (v * v))
  {
    assert (-a) * (-a) == a * a;
    assert (a * a) * (-a) == -(a * a * a);
  }

  lemma ZeroCong(n: int, x: int, y: int)
    requires n % P == 0 && y - x == n
    ensures Cong(x, y, P)
  {
    ModSmall(0, P);
    CongAdd(y, y, n, 0, P);
  }

  /** The product of a0 + a1*X + a2*X^2 with a2*X - a1, which has degree at most one. */
  function Lowered(a: EF): EF {
    EF(a.c2 * a.c2 - a.c0 * a.c1, a.c2 * a.c2 + a.c0 * a.c2 - a.c1 * a.c1, 0)
  }

  lemma LoweredProduct(a: EF)
    ensures ZMul(EF(-a.c1, a.c2, 0), a) == Lowered(a)
  {
    hide ZMul;
    DistributeThree(EF(-a.c1, a.c2, 0), a);
    assert (-a.c1) * a.c0 == -(a.c0 * a.c1) && (-a.c1) * a.c1 == -(a.c1 * a.c1) && (-a.c1) * a.c2 == -(a.c2 * a.c1);
    assert a.c2 * (a.c0 + a.c2) == a.c0 * a.c2 + a.c2 * a.c2;
    assert a.c2 * (a.c1 + a.c2) == a.c2 * a.c1 + a.c2 * a.c2;
  }

  lemma LoweredNotZero(a: EF)
    requires a.c2 % P != 0
    ensures Red(Lowered(a)) != ZERO
  {
    var m := Lowered(a);
    if m.c0 % P == 0 && m.c1 % P == 0 {
      CubicRelation(a, m.c0, m.c1);
      NoHomogeneousRoot(a.c1, a.c2);
    }
  }

  lemma CubicRelation(a: EF, m0: int, m1: int)
    requires m0 == a.c2 * a.c2 - a.c0 * a.c1 && m1 == a.c2 * a.c2 + a.c0 * a.c2 - a.c1 * a.c1
    requires m0 % P == 0 && m1 % P == 0
    ensures Cong(a.c1 * a.c1 * a.c1, a.c1 * (a.c2 * a.c2) + a.c2 * a.c2 * a.c2, P)
  {
    ModSmall(0, P);
    var x, y := a.c1 * a.c1 * a.c1, a.c1 * (a.c2 * a.c2) + a.c2 * a.c2 * a.c2;
    assert y - x == a.c1 * m1 + a.c2 * m0 by {
      assert a.c1 * m1 == a.c1 * (a.c2 * a.c2) + a.c1 * (a.c0 * a.c2) - a.c1 * (a.c1 * a.c1);
      assert a.c2 * m0 == a.c2 * (a.c2 * a.c2) - a.c2 * (a.c0 * a.c1);
      assert a.c1 * (a.c0 * a.c2) == a.c2 * (a.c0 * a.c1);
    }
    CongScale(a.c1, m1, 0, P);
    CongScale(a.c2, m0, 0, P);
    CongAdd(a.c1 * m1, 0, a.c2 * m0, 0, P);
    ZeroCong(a.c1 * m1 + a.c2 * m0, x, y);
  }

  /** Every element that is not zero has an inverse. */
  lemma InverseExists(a: EF) returns (b: EF)
    requires Red(a) != ZERO
    ensures IsInverse(a, b)
  {
    hide ZMul, EfMul;
    if a.c2 % P == 0 {
      ModSmall(0, P);
      var c := LinearInverse(a.c0, a.c1);
      RedMul(a, c);
      RedMul(EF(a.c0, a.c1, 0), c);
      RedMulLeft(a, EF(a.c0, a.c1, 0), c);
      b := c;
    } else {
      LoweredProduct(a);
      LoweredNotZero(a);
      var q, m := EF(-a.c1, a.c2, 0), Lowered(a);
      var c := LinearInverse(m.c0, m.c1);
      b := EfMul(q, c);
      EfMulAssoc(a, q, c);
      EfMulComm(a, q);
      RedMul(q, a);
      RedIdempotent(m);
      RedMul(EfMul(q, a), c);
      RedMul(m, c);
      RedMulLeft(EfMul(q, a), m, c);
    }
  }

  /** The extension has no zero divisors. */
  lemma NoZeroDivisors(a: EF, b: EF)
    ensures EfMul(a, b) == ZERO <==> Red(a) == ZERO || Red(b) == ZERO
  {
    hide EfMul;
    ZeroProduct(a, b);
    ZeroProduct(b, a);
    EfMulComm(a, b);
    if EfMul(a, b) == ZERO && Red(a) != ZERO {
      var c := InverseExists(a);
      EfMulComm(a, c);
      EfMulAssoc(c, a, b);
      EfMulOne(b);
      RedIdempotent(ZERO);
      ZeroProduct(ZERO, c);
      EfMulComm(ZERO, c);
    }
  }

  lemma ZeroProduct(a: EF, b: EF)
    ensures Red(a) == ZERO ==> EfMul(a, b) == ZERO
  {
    RedMul(a, b);
    RedIdempotent(ZERO);
    if Red(a) == ZERO {
      RedMulLeft(a, ZERO, b);
      assert ZMul(ZERO, b) == ZERO;
    }
  }

  // ----- ef_frobenius -----

  /** The columns of FROBENIUS_MATRIX: the images of X and of X^2. */
  const T1 := EF(10615703402128488253, 10050274602728160328, 11746561000929144102)
  const T2 := EF(6700183068485440220, 14531223735771536287, 8396469466686423992)

  /** ef_frobenius. */
  function EfFrobenius(a: EF): EF {
    EF(FAdd(FAdd(FMul(1, a.c0), FMul(T1.c0, a.c1)), FMul(T2.c0, a.c2)),
       FAdd(FAdd(FMul(0, a.c0), FMul(T1.c1, a.c1)), FMul(T2.c1, a.c2)),
       FAdd(FAdd(FMul(0, a.c0), FMul(T1.c2, a.c1)), FMul(T2.c2, a.c2)))
  }

  /** The same without reduction: a0 + a1*T1 + a2*T2. */
  function ZFrobenius(a: EF): EF { ZAdd(ZAdd(ZScale(a.c0, ONE), ZScale(a.c1, T1)), ZScale(a.c2, T2)) }

  lemma FrobeniusReduced(a: EF)
    ensures EfFrobenius(a) == Red(ZFrobenius(a))
  {
    hide FAdd, FMul;
    FSum(1, a.c0, T1.c0, a.c1, T2.c0, a.c2);
    FSum(0, a.c0, T1.c1, a.c1, T2.c1, a.c2);
    FSum(0, a.c0, T1.c2, a.c1, T2.c2, a.c2);
  }

  lemma FrobeniusCong(a: EF, b: EF)
    requires Red(a) == Red(b)
    ensures Red(ZFrobenius(a)) == Red(ZFrobenius(b))
  {
    hide Red;
    ComponentsCong(a, b);
    ScaleCong(a.c0, b.c0, ONE);
    ScaleCong(a.c1, b.c1, T1);
    ScaleCong(a.c2, b.c2, T2);
    RedAddCong(ZScale(a.c0, ONE), ZScale(b.c0, ONE), ZScale(a.c1, T1), ZScale(b.c1, T1));
    RedAddCong(ZAdd(ZScale(a.c0, ONE), ZScale(a.c1, T1)), ZAdd(ZScale(b.c0, ONE), ZScale(b.c1, T1)),
               ZScale(a.c2, T2), ZScale(b.c2, T2));
  }

  lemma ComponentsCong(a: EF, b: EF)
    requires Red(a) == Red(b)
    ensures Cong(a.c0, b.c0, P) && Cong(a.c1, b.c1, P) && Cong(a.c2, b.c2, P)
  {
  }

  /** Multiplication by X, with X^3 replaced by X + 1. */
  function TimesX(a: EF): EF { EF(a.c2, a.c0 + a.c2, a.c1) }

  lemma PowersOfT()
    ensures EfMul(T1, T1) == T2 && EfMul(T2, T1) == EfAdd(T1, ONE)
    ensures EfFrobenius(T1) == IMAGE && EfFrobenius(IMAGE) == EF(0, 1, 0)
  {
    hide EfMul, EfFrobenius, ZMul;
    ProductByQuotients(T1, T1, T2, 18908783295495808781, 31847110206385464757, 26475443485460466248);
    ProductByQuotients(T2, T1, EF(10615703402128488254, 10050274602728160328, 11746561000929144102),
                       17683656521254470536, 31187412231544454437, 22362264403057632354);
    FrobeniusReduced(T1);
    FrobeniusReduced(IMAGE);
    DivModUnique(ZFrobenius(T1).c0, 10050274602728160329, IMAGE.c0, P);
    DivModUnique(ZFrobenius(T1).c1, 14728882484531322146, IMAGE.c1, P);
    DivModUnique(ZFrobenius(T1).c2, 11746561000929144101, IMAGE.c2, P);
    DivModUnique(ZFrobenius(IMAGE).c0, 7265611867885768144, 0, P);
    DivModUnique(ZFrobenius(IMAGE).c1, 9852615853968374468, 1, P);
    DivModUnique(ZFrobenius(IMAGE).c2, 8396469466686423992, 0, P);
  }

  /** The image of T1. */
  const IMAGE := EF(7831040667286096068, 8396469466686423992, 6700183068485440219)

  /** The image of a times T1 is the image of a*X. */
  lemma FrobeniusTimesX(a: EF)
    ensures Red(ZMul(ZFrobenius(a), T1)) == Red(ZFrobenius(TimesX(a)))
  {
    hide ZMul, EfMul, Red, EfFrobenius, ZScale, ZAdd;
    var u0, u1, u2 := ZScale(a.c0, ONE), ZScale(a.c1, T1), ZScale(a.c2, T2);
    ZMulComm(ZAdd(ZAdd(u0, u1), u2), T1);
    ZMulAdd(T1, ZAdd(u0, u1), u2);
    ZMulAdd(T1, u0, u1);
    TermTimes(a.c0, ONE, T1);
    TermTimes(a.c1, T1, T2);
    TermTimes(a.c2, T2, ZAdd(T1, ONE));
    OneTimesT();
    PowersOfT();
    RedMul(T1, T1);
    RedMul(T2, T1);
    RedAdd(T1, ONE);
    RedIdempotent(T2);
    TermSum(a, ZMul(T1, u0), ZMul(T1, u1), ZMul(T1, u2));
  }

  lemma OneTimesT()
    ensures Red(ZMul(ONE, T1)) == Red(T1) && Red(T2) == T2
  {
    ZMulComm(ONE, T1);
    ZMulBase(T1, 1);
    RedIdempotent(T2);
  }

  lemma TermTimes(s: int, t: EF, v: EF)
    ensures Red(ZMul(t, T1)) == Red(v) ==> Red(ZMul(T1, ZScale(s, t))) == Red(ZScale(s, v))
  {
    hide ZMul, Red;
    ZMulComm(T1, ZScale(s, t));
    ZScaleMul(s, t, T1);
    if Red(ZMul(t, T1)) == Red(v) {
      RedScaleCong(s, ZMul(t, T1), v);
    }
  }

  lemma TermSum(a: EF, t0: EF, t1: EF, t2: EF)
    requires Red(t0) == Red(ZScale(a.c0, T1)) && Red(t1) == Red(ZScale(a.c1, T2))
    requires Red(t2) == Red(ZScale(a.c2, ZAdd(T1, ONE)))
    ensures Red(ZAdd(ZAdd(t0, t1), t2)) == Red(ZFrobenius(TimesX(a)))
  {
    hide Red;
    var v0, v1, v2 := ZScale(a.c0, T1), ZScale(a.c1, T2), ZScale(a.c2, ZAdd(T1, ONE));
    RedAddCong(t0, v0, t1, v1);
    RedAddCong(ZAdd(t0, t1), ZAdd(v0, v1), t2, v2);
    assert ZAdd(ZAdd(v0, v1), v2) == ZFrobenius(TimesX(a));
  }

  /** The image of a times T2 is the image of a*X^2. */
  lemma FrobeniusTimesX2(a: EF)
    ensures Red(ZMul(ZFrobenius(a), T2)) == Red(ZFrobenius(TimesX(TimesX(a))))
  {
    hide ZMul, EfMul, Red, EfFrobenius, ZFrobenius, TimesX;
    var u := ZFrobenius(a);
    PowersOfT();
    RedMul(T1, T1);
    RedIdempotent(T2);
    OneTimesT();
    RedMulCong(u, u, T2, ZMul(T1, T1));
    ZMulAssoc(u, T1, T1);
    FrobeniusTimesX(a);
    RedMulLeft(ZMul(u, T1), ZFrobenius(TimesX(a)), T1);
    FrobeniusTimesX(TimesX(a));
  }

  /** A product, as a combination of a, a*X and a*X^2. */
  lemma ProductColumns(a: EF, b: EF)
    ensures ZMul(a, b) == ZAdd(ZAdd(ZScale(b.c0, a), ZScale(b.c1, TimesX(a))), ZScale(b.c2, TimesX(TimesX(a))))
  {
    hide ZMul, ZAdd, ZScale, TimesX;
    DistributeThree(a, b);
    FirstRow(a.c0, a.c1, a.c2, b.c0, b.c1, b.c2);
    MiddleRow(a.c0, a.c1, a.c2, b.c0, b.c1, b.c2);
    LastRow(a.c0, a.c1, a.c2, b.c0, b.c1, b.c2);
    ColumnValues(a, b);
  }

  /** The three components of the combination. */
  lemma ColumnValues(a: EF, b: EF)
    ensures ZAdd(ZAdd(ZScale(b.c0, a), ZScale(b.c1, TimesX(a))), ZScale(b.c2, TimesX(TimesX(a))))
         == EF(b.c0 * a.c0 + b.c1 * a.c2 + b.c2 * a.c1,
               b.c0 * a.c1 + b.c1 * (a.c0 + a.c2) + b.c2 * (a.c1 + a.c2),
               b.c0 * a.c2 + b.c1 * a.c1 + b.c2 * (a.c0 + a.c2))
  {
  }

  lemma FirstRow(a0: int, a1: int, a2: int, b0: int, b1: int, b2: int)
    ensures a0 * b0 + a1 * b2 + a2 * b1 == b0 * a0 + b1 * a2 + b2 * a1
  {
  }

  lemma MiddleRow(a0: int, a1: int, a2: int, b0: int, b1: int, b2: int)
    ensures a0 * b1 + a1 * (b0 + b2) + a2 * (b1 + b2) == b0 * a1 + b1 * (a0 + a2) + b2 * (a1 + a2)
  {
    MulDistributes(b0, b2, a1);
    MulDistributes(b1, b2, a2);
    MulDistributes(a0, a2, b1);
    MulDistributes(a1, a2, b2);
  }

  lemma LastRow(a0: int, a1: int, a2: int, b0: int, b1: int, b2: int)
    ensures a0 * b2 + a1 * b1 + a2 * (b0 + b2) == b0 * a2 + b1 * a1 + b2 * (a0 + a2)
  {
    MulDistributes(b0, b2, a2);
    MulDistributes(a0, a2, b2);
  }

  lemma FrobeniusLinear(s0: int, a: EF, s1: int, b: EF, s2: int, c: EF)
    ensures ZFrobenius(ZAdd(ZAdd(ZScale(s0, a), ZScale(s1, b)), ZScale(s2, c)))
         == ZAdd(ZAdd(ZScale(s0, ZFrobenius(a)), ZScale(s1, ZFrobenius(b))), ZScale(s2, ZFrobenius(c)))
  {
    LinearRow(s0, a, s1, b, s2, c, 1, T1.c0, T2.c0);
    LinearRow(s0, a, s1, b, s2, c, 0, T1.c1, T2.c1);
    LinearRow(s0, a, s1, b, s2, c, 0, T1.c2, T2.c2);
  }

  lemma LinearRow(s0: int, a: EF, s1: int, b: EF, s2: int, c: EF, m0: int, m1: int, m2: int)
    ensures (s0 * a.c0 + s1 * b.c0 + s2 * c.c0) * m0 + (s0 * a.c1 + s1 * b.c1 + s2 * c.c1) * m1
          + (s0 * a.c2 + s1 * b.c2 + s2 * c.c2) * m2
         == s0 * (a.c0 * m0 + a.c1 * m1 + a.c2 * m2) + s1 * (b.c0 * m0 + b.c1 * m1 + b.c2 * m2)
          + s2 * (c.c0 * m0 + c.c1 * m1 + c.c2 * m2)
  {
    SpreadRow(s0, a, m0, m1, m2);
    SpreadRow(s1, b, m0, m1, m2);
    SpreadRow(s2, c, m0, m1, m2);
    Spread(s0 * a.c0, s1 * b.c0, s2 * c.c0, 0, 0, m0);
    Spread(s0 * a.c1, s1 * b.c1, s2 * c.c1, 0, 0, m1);
    Spread(s0 * a.c2, s1 * b.c2, s2 * c.c2, 0, 0, m2);
  }

  lemma SpreadRow(s: int, a: EF, m0: int, m1: int, m2: int)
    ensures s * (a.c0 * m0 + a.c1 * m1 + a.c2 * m2) == (s * a.c0) * m0 + (s * a.c1) * m1 + (s * a.c2) * m2
  {
    Spread(a.c0 * m0, a.c1 * m1, a.c2 * m2, 0, 0, s);
    MulAssoc(s, a.c0, m0);
    MulAssoc(s, a.c1, m1);
    MulAssoc(s, a.c2, m2);
  }

  lemma ScaledTerm(u: EF, s: int, t: EF, v: EF)
    requires Red(ZMul(u, t)) == Red(v)
    ensures Red(ZMul(u, ZScale(s, t))) == Red(ZScale(s, v))
  {
    hide ZMul, Red;
    ZMulScale(u, t, s);
    ZScaleMul(s, u, t);
    RedScaleCong(s, ZMul(u, t), v);
  }

  /** A product with b0 + b1*t1 + b2*t2, from the products of u with t1 and t2. */
  lemma ProductWithColumns(u: EF, t1: EF, t2: EF, u1: EF, u2: EF, b: EF)
    requires Red(ZMul(u, t1)) == Red(u1) && Red(ZMul(u, t2)) == Red(u2)
    ensures Red(ZMul(u, ZAdd(ZAdd(ZScale(b.c0, ONE), ZScale(b.c1, t1)), ZScale(b.c2, t2))))
         == Red(ZAdd(ZAdd(ZScale(b.c0, u), ZScale(b.c1, u1)), ZScale(b.c2, u2)))
  {
    hide ZMul, Red, ZScale, ZAdd;
    var v0, v1, v2 := ZScale(b.c0, ONE), ZScale(b.c1, t1), ZScale(b.c2, t2);
    ZMulAdd(u, ZAdd(v0, v1), v2);
    ZMulAdd(u, v0, v1);
    TimesOne(u);
    ScaledTerm(u, b.c0, ONE, u);
    ScaledTerm(u, b.c1, t1, u1);
    ScaledTerm(u, b.c2, t2, u2);
    RedAddCong(ZMul(u, v0), ZScale(b.c0, u), ZMul(u, v1), ZScale(b.c1, u1));
    RedAddCong(ZAdd(ZMul(u, v0), ZMul(u, v1)), ZAdd(ZScale(b.c0, u), ZScale(b.c1, u1)), ZMul(u, v2), ZScale(b.c2, u2));
  }

  lemma TimesOne(u: EF)
    ensures Red(ZMul(u, ONE)) == Red(u)
  {
    ZMulBase(u, 1);
  }

  /** ef_frobenius is multiplicative. */
  lemma FrobeniusProduct(a: EF, b: EF)
    ensures EfFrobenius(EfMul(a, b)) == EfMul(EfFrobenius(a), EfFrobenius(b))
  {
    hide ZMul, EfMul, Red, EfFrobenius, TimesX, T1, T2;
    var u, a1, a2 := ZFrobenius(a), TimesX(a), TimesX(TimesX(a));
    assert ZFrobenius(b) == ZAdd(ZAdd(ZScale(b.c0, ONE), ZScale(b.c1, T1)), ZScale(b.c2, T2));
    hide ZFrobenius, ZScale, ZAdd;
    FrobeniusReduced(a);
    FrobeniusReduced(b);
    FrobeniusReduced(EfMul(a, b));
    RedMul(a, b);
    RedIdempotent(ZMul(a, b));
    FrobeniusCong(EfMul(a, b), ZMul(a, b));
    ProductColumns(a, b);
    FrobeniusLinear(b.c0, a, b.c1, a1, b.c2, a2);
    FrobeniusTimesX(a);
    FrobeniusTimesX2(a);
    ProductWithColumns(u, T1, T2, ZFrobenius(a1), ZFrobenius(a2), b);
    RedMul(EfFrobenius(a), EfFrobenius(b));
    RedIdempotent(u);
    RedIdempotent(ZFrobenius(b));
    RedMulCong(EfFrobenius(a), u, EfFrobenius(b), ZFrobenius(b));
  }

  lemma FrobeniusOfReduced(a: EF)
    ensures EfFrobenius(Red(a)) == EfFrobenius(a)
  {
    hide Red, EfFrobenius, ZFrobenius;
    FrobeniusReduced(a);
    FrobeniusReduced(Red(a));
    RedIdempotent(a);
    FrobeniusCong(Red(a), a);
  }

  lemma ImagesTwice()
    ensures Red(ZFrobenius(ZFrobenius(T1))) == EF(0, 1, 0) && Red(ZFrobenius(ZFrobenius(T2))) == EF(0, 0, 1)
    ensures ZFrobenius(ONE) == ONE
  {
    hide EfMul, EfFrobenius, Red, ZMul;
    PowersOfT();
    TwiceReduced(T1);
    TwiceReduced(T2);
    FrobeniusProduct(T1, T1);
    FrobeniusProduct(IMAGE, IMAGE);
    ProductByQuotients(EF(0, 1, 0), EF(0, 1, 0), EF(0, 0, 1), 0, 0, 0);
  }

  lemma TwiceReduced(a: EF)
    ensures EfFrobenius(EfFrobenius(a)) == Red(ZFrobenius(ZFrobenius(a)))
  {
    hide Red, EfFrobenius, ZFrobenius;
    FrobeniusReduced(a);
    FrobeniusOfReduced(ZFrobenius(a));
    FrobeniusReduced(ZFrobenius(a));
  }

  /** Its third power is the identity, so it is an automorphism. */
  lemma FrobeniusCubed(a: EF)
    ensures EfFrobenius(EfFrobenius(EfFrobenius(a))) == Red(a)
  {
    hide EfFrobenius, Red;
    var u := ZFrobenius(a);
    assert u == ZAdd(ZAdd(ZScale(a.c0, ONE), ZScale(a.c1, T1)), ZScale(a.c2, T2));
    hide ZFrobenius, T1, T2;
    FrobeniusReduced(a);
    FrobeniusOfReduced(u);
    TwiceReduced(u);
    FrobeniusLinear(a.c0, ONE, a.c1, T1, a.c2, T2);
    FrobeniusLinear(a.c0, ZFrobenius(ONE), a.c1, ZFrobenius(T1), a.c2, ZFrobenius(T2));
    ImagesTwice();
    BasisSum(a, ZFrobenius(ZFrobenius(T1)), ZFrobenius(ZFrobenius(T2)));
  }

  lemma BasisSum(a: EF, x: EF, x2: EF)
    requires Red(x) == EF(0, 1, 0) && Red(x2) == EF(0, 0, 1)
    ensures Red(ZAdd(ZAdd(ZScale(a.c0, ONE), ZScale(a.c1, x)), ZScale(a.c2, x2))) == Red(a)
  {
    hide Red;
    RedIdempotent(x);
    RedIdempotent(x2);
    RedScaleCong(a.c1, x, EF(0, 1, 0));
    RedScaleCong(a.c2, x2, EF(0, 0, 1));
    RedAddCong(ZScale(a.c0, ONE), ZScale(a.c0, ONE), ZScale(a.c1, x), ZScale(a.c1, EF(0, 1, 0)));
    RedAddCong(ZAdd(ZScale(a.c0, ONE), ZScale(a.c1, x)), ZAdd(ZScale(a.c0, ONE), ZScale(a.c1, EF(0, 1, 0))),
               ZScale(a.c2, x2), ZScale(a.c2, EF(0, 0, 1)));
    assert ZAdd(ZAdd(ZScale(a.c0, ONE), ZScale(a.c1, EF(0, 1, 0))), ZScale(a.c2, EF(0, 0, 1))) == a;
  }

  // ----- ef_inv -----

  /** An element equal to its own image lies in the base field. */
  lemma FixedIsBase(e: EF)
    requires Canonical(e) && EfFrobenius(e) == e
    ensures e == FromBase(e.c0)
  {
    hide EfFrobenius;
    FrobeniusReduced(e);
    var x, y := e.c1, e.c2;
    ModSmall(e.c0, P);
    ModSmall(x, P);
    FixedRow(e.c0, T1.c0 * x + T2.c0 * y);
    FixedRow(x, (T1.c1 - 1) * x + T2.c1 * y);
    assert e.c0 + (T1.c0 * x + T2.c0 * y) == ZFrobenius(e).c0 && x + ((T1.c1 - 1) * x + T2.c1 * y) == ZFrobenius(e).c1;
    KernelZero(x, y);
  }

  lemma FixedRow(c: int, d: int)
    requires Cong(c + d, c, P)
    ensures Cong(d, 0, P)
  {
    CongAdd(c + d, c, c, c, P);
  }

  /** The determinant of the two rows is 2 modulo P. */
  lemma KernelZero(x: int, y: int)
    requires 0 <= x < P && 0 <= y < P
    requires Cong(T1.c0 * x + T2.c0 * y, 0, P) && Cong((T1.c1 - 1) * x + T2.c1 * y, 0, P)
    ensures x == 0 && y == 0
  {
    hide Cong;
    var u, v := T1.c0 * x + T2.c0 * y, (T1.c1 - 1) * x + T2.c1 * y;
    CongScale(T2.c1, u, 0, P);
    CongScale(T2.c0, v, 0, P);
    CongAdd(T2.c1 * u, 0, T2.c0 * v, 0, P);
    assert T2.c1 * u - T2.c0 * v == 2 * x + (4711968746083988189 * x) * P;
    DropMultiple(2 * x, 4711968746083988189 * x);
    FactorZero(2, x);
    assert u == T2.c0 * y;
    FactorZero(T2.c0, y);
  }

  lemma DropMultiple(a: int, k: int)
    requires Cong(a + k * P, 0, P)
    ensures Cong(a, 0, P)
  {
    CongIntro(a + k * P, a, k, P);
  }

  lemma FactorZero(c: int, x: int)
    requires 0 < c < P && 0 <= x < P && Cong(c * x, 0, P)
    ensures x == 0
  {
    ModSmall(0, P);
    ModSmall(c, P);
    ModSmall(x, P);
    GoldilocksPrime();
    Euclid(P, c, x);
  }

  /** a * a^p * a^(p^2), as ef_inv computes it. */
  function NormOf(a: EF): EF { EfMul(a, EfFrobenius(EfMul(a, EfFrobenius(a)))) }

  /** The norm is fixed by ef_frobenius, so it lies in the base field, and is zero only for zero. */
  lemma NormInBase(a: EF)
    ensures NormOf(a) == FromBase(NormOf(a).c0) && Canonical(NormOf(a))
    ensures NormOf(a).c0 == 0 <==> Red(a) == ZERO
  {
    hide EfMul, EfFrobenius, Red, Canonical;
    var b, c := EfFrobenius(a), EfFrobenius(EfFrobenius(a));
    FrobeniusProduct(a, b);
    var n := EfMul(a, EfMul(b, c));
    assert NormOf(a) == n;
    EfMulCanonical(a, EfMul(b, c));
    FrobeniusProduct(a, EfMul(b, c));
    FrobeniusProduct(b, c);
    FrobeniusCubed(a);
    NormRotates(a, b, c);
    FixedIsBase(n);
    NormZero(a, b, c);
  }

  lemma NormRotates(a: EF, b: EF, c: EF)
    ensures EfMul(b, EfMul(c, Red(a))) == EfMul(a, EfMul(b, c))
  {
    hide EfMul, Red, ZMul;
    EfMulAssoc(b, c, Red(a));
    EfMulComm(EfMul(b, c), Red(a));
    RedMul(Red(a), EfMul(b, c));
    RedMul(a, EfMul(b, c));
    RedIdempotent(a);
    RedMulLeft(Red(a), a, EfMul(b, c));
  }

  lemma FrobeniusZero(a: EF)
    ensures Red(EfFrobenius(a)) == EfFrobenius(a)
    ensures EfFrobenius(a) == ZERO <==> Red(a) == ZERO
  {
    hide EfFrobenius, Red, ZFrobenius;
    FrobeniusReduced(a);
    RedIdempotent(ZFrobenius(a));
    FrobeniusCubed(a);
    FrobeniusOfReduced(a);
    ImageOfZero();
  }

  lemma ImageOfZero()
    ensures EfFrobenius(ZERO) == ZERO
  {
    hide EfFrobenius;
    FrobeniusReduced(ZERO);
    ModSmall(0, P);
  }

  lemma NormZero(a: EF, b: EF, c: EF)
    requires b == EfFrobenius(a) && c == EfFrobenius(b)
    ensures EfMul(a, EfMul(b, c)) == ZERO <==> Red(a) == ZERO
  {
    hide EfMul, EfFrobenius;
    FrobeniusZero(a);
    FrobeniusZero(b);
    NoZeroDivisors(b, c);
    NoZeroDivisors(a, EfMul(b, c));
    EfMulCanonical(b, c);
    RedIdempotent(EfMul(b, c));
  }

  /** ef_inv; None is the ZeroDivisionError of either division. */
  function EfInv(a: EF): Option<EF> {
    if a == ZERO then None
    else
      var prodConj := EfFrobenius(EfMul(a, EfFrobenius(a)));
      var norm := EfMul(a, prodConj).c0;
      if norm == 0 then None
      else
        var normInv := FInv(norm);
        Some(EF(FMul(prodConj.c0, normInv), FMul(prodConj.c1, normInv), FMul(prodConj.c2, normInv)))
  }

  /** ef_inv inverts every element but zero, and raises exactly on the representations of zero. */
  lemma EfInvCorrect(a: EF)
    ensures EfInv(a) == None <==> Red(a) == ZERO
    ensures EfInv(a).Some? ==> EfMul(a, EfInv(a).value) == ONE
  {
    hide EfMul, EfFrobenius, FInv;
    NormInBase(a);
    RedIdempotent(ZERO);
    if EfInv(a).Some? {
      var prodConj, norm := EfFrobenius(EfMul(a, EfFrobenius(a))), NormOf(a).c0;
      var s := FInv(norm);
      assert prodConj.c0 * s == s * prodConj.c0 && prodConj.c1 * s == s * prodConj.c1;
      assert prodConj.c2 * s == s * prodConj.c2;
      assert EfInv(a).value == EfScalarMul(s, prodConj);
      NormTimes(a, prodConj, norm);
    }
  }

  lemma NormTimes(a: EF, c: EF, n: int)
    requires EfMul(a, c) == FromBase(n) && 0 < n < P
    ensures EfMul(a, EfScalarMul(FInv(n), c)) == ONE
  {
    hide EfMul, EfScalarMul, ZMul, Red, FInv;
    ModSmall(n, P);
    FInvCorrect(n);
    var s := FInv(n);
    EfMulComm(a, EfScalarMul(s, c));
    ScaleProduct(s, c, a);
    EfMulComm(c, a);
    RedScale(s, FromBase(n));
    UnitOf(s, n);
  }
}
